/** A file of frames: each frame is cut into 4-byte words, the first two words are
    dropped and the rest is decoded as one record, frame after frame until the first
    error or the end of the data. */
module Archive {
  import opened Wrappers
  import opened Slices
  import opened BigEndian
  import opened WordLists
  import opened Dispatch

  /** The bytes read per frame. */
  const FrameSize := 3572

  /** The number of 4-byte slices taken from every frame, whatever its length. */
  const SliceCount := 893

  /** The slices of a frame: slice k is bytes 4k to 4k + 3, clamped to the frame. */
  function Chunk(frame: seq<byte>): (ws: seq<Word>)
    ensures |ws| == SliceCount
    ensures forall k :: 0 <= k < SliceCount ==> ws[k] == Slice(frame, 4 * k, 4 * k + 4)
  {
    var starts := Range(0, SliceCount * 4, 4);
    seq(|starts|, k requires 0 <= k < |starts| => Slice(frame, starts[k], starts[k] + 4))
  }

  /** The first n slices are, end to end, the first 4n bytes of the frame. */
  lemma {:induction false} ChunkPrefix(frame: seq<byte>, n: nat)
    requires n <= SliceCount
    ensures Concat(Chunk(frame)[..n]) == Take(frame, 4 * n)
  {
    var ws := Chunk(frame);
    if n == 0 {
      assert ws[..0] == [];
    } else {
      ChunkPrefix(frame, n - 1);
      PrefixSnoc(ws, n);
      ConcatSnoc(ws[..n - 1], ws[n - 1]);
      TakeSlice(frame, 4 * (n - 1), 4 * n);
    }
  }

  /** Chunking keeps exactly the first 3572 bytes, in order: nothing is lost from a
      full frame and nothing is invented. */
  lemma ChunkBytes(frame: seq<byte>)
    ensures Concat(Chunk(frame)) == Take(frame, FrameSize)
  {
    ChunkPrefix(frame, SliceCount);
    assert Chunk(frame)[..SliceCount] == Chunk(frame);
  }

  /** Every slice of a full frame is a whole word. */
  lemma FullFrameWords(frame: seq<byte>)
    requires |frame| == FrameSize
    ensures forall k :: 0 <= k < SliceCount ==> |Chunk(frame)[k]| == 4
  {
  }

  /** The tag of a frame: bytes 8 to 11, clamped. It fits in 32 bits, and a frame
      of at most 8 bytes has tag 0. */
  function FrameTag(frame: seq<byte>): (tag: nat)
    ensures tag < 0x1_0000_0000
    ensures |frame| <= 8 ==> tag == 0
  {
    Pow256Monotone(|Slice(frame, 8, 12)|, 4);
    assert Pow256(4) == 0x1_0000_0000;
    Int(Slice(frame, 8, 12))
  }

  /** A frame's record is never the wrong length, whatever the frame's length,
      and it decodes exactly when its tag is from 1 to 8. */
  function DecodeFrame(frame: seq<byte>): (r: Result<Decoded, DecodeError>)
    ensures !(r.Err? && r.error.InvalidLength?)
    ensures r.Ok? <==> 1 <= FrameTag(frame) <= 8
    ensures r.Err? ==> r.error == UnknownRecordType(FrameTag(frame))
  {
    DecodeRecord(Chunk(frame)[2..])
  }

  /** The frames of a file: 3572 bytes each, the last one possibly shorter. */
  function Frames(data: seq<byte>): (fs: seq<seq<byte>>)
    ensures Concat(fs) == data
    ensures forall i :: 0 <= i < |fs| ==> 0 < |fs[i]| <= FrameSize
    ensures forall i :: 0 <= i < |fs| - 1 ==> |fs[i]| == FrameSize
    decreases |data|
  {
    if data == [] then []
    else
      var rest := Frames(Drop(data, FrameSize));
      TakeDrop(data, FrameSize);
      assert ([Take(data, FrameSize)] + rest)[1..] == rest;
      [Take(data, FrameSize)] + rest
  }

  /** `dat.read(FRAME)` with the file at position pos: up to 3572 bytes, none at the end. */
  function Read(data: seq<byte>, pos: nat): (frame: seq<byte>)
    ensures |frame| == Min(FrameSize, |data| - Min(pos, |data|))
  {
    Take(Drop(data, pos), FrameSize)
  }

  /** The records decoded before the first failing frame, and that failure if any. */
  datatype Outcome = Outcome(decoded: seq<Decoded>, failure: Option<DecodeError>)

  /** An outcome with records decoded earlier put in front. */
  function Prefixed(ds: seq<Decoded>, o: Outcome): Outcome
  {
    Outcome(ds + o.decoded, o.failure)
  }

  /** Decoding the data from byte pos on with the frame decoder `dec`: frame after
      frame, up to the first frame that fails or to the end of the data. */
  function DecodeFrom(dec: seq<byte> -> Result<Decoded, DecodeError>, data: seq<byte>, pos: nat): (o: Outcome)
    ensures o.decoded != [] ==> (|o.decoded| - 1) * FrameSize < |data| - pos
    ensures o.failure.None? ==> |data| - pos <= |o.decoded| * FrameSize
    decreases |data| - pos
  {
    var frame := Read(data, pos);
    if frame == [] then Outcome([], None)
    else
      match dec(frame)
      case Err(e) => Outcome([], Some(e))
      case Ok(d) => Prefixed([d], DecodeFrom(dec, data, pos + |frame|))
  }

  /** The records of a whole file, each frame decoded by `DecodeFrame`: one record
      per read of up to 3572 bytes, so a file read to its end without an error has
      as many records as it has frames. */
  function DecodeArchive(data: seq<byte>): (o: Outcome)
    ensures o.decoded != [] ==> (|o.decoded| - 1) * FrameSize < |data|
    ensures o.failure.None? ==> |data| <= |o.decoded| * FrameSize
  {
    DecodeFrom(DecodeFrame, data, 0)
  }

  /** One frame's result put in front of the outcome of the frames after it. */
  function Step(r: Result<Decoded, DecodeError>, rest: Outcome): Outcome
  {
    match r
    case Err(e) => Outcome([], Some(e))
    case Ok(d) => Prefixed([d], rest)
  }

  /** What it means for an outcome to stop at the first failure among results
      taken in order: the successes before it are kept, in order, and the
      failure is the next result. */
  predicate FirstFailure(o: Outcome, rs: seq<Result<Decoded, DecodeError>>)
  {
    |o.decoded| <= |rs| &&
    (forall i :: 0 <= i < |o.decoded| ==> rs[i] == Ok(o.decoded[i])) &&
    (o.failure.None? ==> |o.decoded| == |rs|) &&
    (o.failure.Some? ==> |o.decoded| < |rs| && rs[|o.decoded|] == Err(o.failure.value))
  }

  lemma FirstFailureStep(r: Result<Decoded, DecodeError>, rs: seq<Result<Decoded, DecodeError>>, o: Outcome)
    requires FirstFailure(o, rs)
    ensures FirstFailure(Step(r, o), [r] + rs)
  {
    if r.Ok? {
      var p := Step(r, o);
      forall i | 1 <= i < |p.decoded| ensures ([r] + rs)[i] == Ok(p.decoded[i]) {
        assert p.decoded[i] == o.decoded[i - 1];
      }
    }
  }

  /** The result of every frame, in order. */
  function Results(dec: seq<byte> -> Result<Decoded, DecodeError>, fs: seq<seq<byte>>): (rs: seq<Result<Decoded, DecodeError>>)
    ensures |rs| == |fs|
  {
    seq(|fs|, i requires 0 <= i < |fs| => dec(fs[i]))
  }

  /** Reading at pos gives one frame and leaves the file at the next frame. */
  lemma ReadStep(dec: seq<byte> -> Result<Decoded, DecodeError>, data: seq<byte>, pos: nat)
    requires Read(data, pos) != []
    ensures Frames(Drop(data, pos)) == [Read(data, pos)] + Frames(Drop(data, pos + |Read(data, pos)|))
    ensures DecodeFrom(dec, data, pos) == Step(dec(Read(data, pos)), DecodeFrom(dec, data, pos + |Read(data, pos)|))
  {
    var frame := Read(data, pos);
    assert Drop(Drop(data, pos), FrameSize) == Drop(data, pos + |frame|);
  }

  /** The results taken in order up to the first failure. */
  function Collect(rs: seq<Result<Decoded, DecodeError>>): Outcome
  {
    if rs == [] then Outcome([], None) else Step(rs[0], Collect(rs[1..]))
  }

  lemma {:induction false} CollectFirstFailure(rs: seq<Result<Decoded, DecodeError>>)
    ensures FirstFailure(Collect(rs), rs)
  {
    if rs != [] {
      CollectFirstFailure(rs[1..]);
      FirstFailureStep(rs[0], rs[1..], Collect(rs[1..]));
      assert [rs[0]] + rs[1..] == rs;
    }
  }

  /** Decoding from pos collects the results of the frames from pos. */
  lemma {:induction false} DecodeFromFrames(dec: seq<byte> -> Result<Decoded, DecodeError>, data: seq<byte>, pos: nat)
    ensures DecodeFrom(dec, data, pos) == Collect(Results(dec, Frames(Drop(data, pos))))
    decreases |data| - pos
  {
    var frame := Read(data, pos);
    if frame == [] {
      assert Drop(data, pos) == [];
    } else {
      var next := pos + |frame|;
      var fs := Frames(Drop(data, next));
      ReadStep(dec, data, pos);
      assert Results(dec, [frame] + fs)[1..] == Results(dec, fs);
      DecodeFromFrames(dec, data, next);
    }
  }

  /** The archive's records are those of its first frames, in file order; it stops
      only at a frame with an unknown tag, or after the last frame. */
  lemma ArchiveOrder(data: seq<byte>)
    ensures FirstFailure(DecodeArchive(data), Results(DecodeFrame, Frames(data)))
  {
    var rs := Results(DecodeFrame, Frames(data));
    DecodeFromFrames(DecodeFrame, data, 0);
    assert Drop(data, 0) == data;
    CollectFirstFailure(rs);
  }

  /** An archive that stops early stops at a frame whose tag is not from 1 to 8. */
  lemma ArchiveFailure(data: seq<byte>)
    ensures var o, fs := DecodeArchive(data), Frames(data);
      o.failure.Some? ==>
        |o.decoded| < |fs| && o.failure.value == UnknownRecordType(FrameTag(fs[|o.decoded|])) &&
        !(1 <= FrameTag(fs[|o.decoded|]) <= 8)
  {
    var o, fs := DecodeArchive(data), Frames(data);
    ArchiveOrder(data);
    if o.failure.Some? {
      assert Results(DecodeFrame, fs)[|o.decoded|] == DecodeFrame(fs[|o.decoded|]);
    }
  }

  /** One frame: its slices, the first two dropped, decoded as a fresh list. */
  method ProcessFrame(frame: seq<byte>) returns (res: Result<Decoded, DecodeError>)
    ensures res == DecodeFrame(frame)
  {
    var words := Chunk(frame);
    var list := new WordList(words[2..]);
    res := ProcessRecord(list);
  }

  lemma PrefixedTwice(a: seq<Decoded>, b: seq<Decoded>, o: Outcome)
    ensures Prefixed(a, Prefixed(b, o)) == Prefixed(a + b, o)
  {
    assert a + (b + o.decoded) == (a + b) + o.decoded;
  }

  /** Reading the file frame by frame: each frame is chunked, its first two slices
      dropped, and the rest decoded as a fresh list; the loop ends at the end of the
      data, where a read returns no bytes, or at the first failing frame. */
  method ProcessFile(data: seq<byte>) returns (out: Outcome)
    ensures out == DecodeArchive(data)
  {
    var decoded: seq<Decoded> := [];
    var pos: nat := 0;
    var frame := Read(data, pos);
    while frame != []
      invariant pos <= |data|
      invariant frame == Read(data, pos)
      invariant DecodeArchive(data) == Prefixed(decoded, DecodeFrom(DecodeFrame, data, pos))
      decreases |data| - pos
    {
      var res := ProcessFrame(frame);
      if res.Err? {
        return Outcome(decoded, Some(res.error));
      }
      PrefixedTwice(decoded, [res.value], DecodeFrom(DecodeFrame, data, pos + |frame|));
      decoded := decoded + [res.value];
      pos := pos + |frame|;
      frame := Read(data, pos);
    }
    out := Outcome(decoded, None);
  }
}
