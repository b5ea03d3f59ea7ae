/** Classification of one chunk returned by the line reader and extraction of
    the fixed-offset fields of a measurement ("BIN,") frame. */
module Frames {
  import opened Bytes
  import opened Fields

  /** Length of a measurement frame, the trailing CR LF included. */
  const FrameLength := 58

  /** The type marker occupies bytes 5..8. */
  const MarkerStart := 5
  const MarkerEnd := 9
  const BinMarker: seq<SChar> := [0x42, 0x49, 0x4E, 0x2C]  // "BIN,"
  const VerMarker: seq<SChar> := [0x56, 0x45, 0x52, 0x2C]  // "VER,"

  lemma MarkerLiterals()
    ensures BinMarker == Ascii("BIN,") && VerMarker == Ascii("VER,")
  {
    var b, v := Ascii("BIN,"), Ascii("VER,");
    assert forall i :: 0 <= i < 4 ==> b[i] == BinMarker[i] && v[i] == VerMarker[i];
  }

  /** Offsets of the high byte of each field; the low byte follows it. */
  const CounterAt := 11
  const GyroXAt := 15
  const GyroYAt := 17
  const GyroZAt := 19
  const AccelXAt := 21
  const AccelYAt := 23
  const AccelZAt := 25
  const RollAt := 27
  const PitchAt := 29
  const YawAt := 31

  /** The raw counts of one measurement, before scaling to physical units. */
  datatype ImuSample = ImuSample(
    gyroX: int, gyroY: int, gyroZ: int,
    accelX: int, accelY: int, accelZ: int,
    roll: int, pitch: int, yaw: int)

  predicate ValidSample(s: ImuSample) {
    IsInt16(s.gyroX) && IsInt16(s.gyroY) && IsInt16(s.gyroZ) &&
    IsInt16(s.accelX) && IsInt16(s.accelY) && IsInt16(s.accelZ) &&
    IsInt16(s.roll) && IsInt16(s.pitch) && IsInt16(s.yaw)
  }

  /** What the read loop makes of a chunk. */
  datatype Frame =
    | Measurement(counter: int, sample: ImuSample)  // fields decoded, sample published
    | VersionResponse(text: seq<SChar>)            // logged, nothing else
    | Ignored                                      // dropped silently

  predicate HasMarker(chunk: seq<SChar>, marker: seq<SChar>) {
    |chunk| >= MarkerEnd && chunk[MarkerStart..MarkerEnd] == marker
  }

  predicate IsMeasurementFrame(chunk: seq<SChar>) {
    |chunk| == FrameLength && HasMarker(chunk, BinMarker)
  }

  /** The ten fields of a 58-byte chunk; every offset read is below 58. */
  function DecodeSample(chunk: seq<SChar>): (s: ImuSample)
    requires |chunk| == FrameLength
    ensures ValidSample(s)
  {
    ImuSample(
      SignedField(chunk[GyroXAt], chunk[GyroXAt + 1]),
      SignedField(chunk[GyroYAt], chunk[GyroYAt + 1]),
      SignedField(chunk[GyroZAt], chunk[GyroZAt + 1]),
      SignedField(chunk[AccelXAt], chunk[AccelXAt + 1]),
      SignedField(chunk[AccelYAt], chunk[AccelYAt + 1]),
      SignedField(chunk[AccelZAt], chunk[AccelZAt + 1]),
      SignedField(chunk[RollAt], chunk[RollAt + 1]),
      SignedField(chunk[PitchAt], chunk[PitchAt + 1]),
      SignedField(chunk[YawAt], chunk[YawAt + 1]))
  }

  function DecodeCounter(chunk: seq<SChar>): (c: int)
    requires |chunk| == FrameLength
    ensures IsUInt16(c)
  {
    CounterField(chunk[CounterAt], chunk[CounterAt + 1])
  }

  /** The read loop's dispatch on a chunk, with the marker bytes read only
      once the chunk is known to hold them. */
  function Classify(chunk: seq<SChar>): (f: Frame)
    ensures f.Measurement? <==> IsMeasurementFrame(chunk)
    ensures f.VersionResponse? <==> !IsMeasurementFrame(chunk) && HasMarker(chunk, VerMarker)
    ensures f.Measurement? ==> IsUInt16(f.counter) && ValidSample(f.sample)
    ensures f.VersionResponse? ==> f.text == chunk
  {
    if |chunk| < MarkerEnd then Ignored
    else if chunk[MarkerStart..MarkerEnd] == BinMarker && |chunk| == FrameLength then
      Measurement(DecodeCounter(chunk), DecodeSample(chunk))
    else if chunk[MarkerStart..MarkerEnd] == VerMarker then VersionResponse(chunk)
    else Ignored
  }

  // ---------------------------------------------------------------------------
  // Encoding a measurement into a frame: the inverse of decoding

  function Put16(b: seq<SChar>, at: nat, p: (SChar, SChar)): (r: seq<SChar>)
    requires at + 1 < |b|
    ensures |r| == |b| && r[at] == p.0 && r[at + 1] == p.1
    ensures forall i :: 0 <= i < |b| && i != at && i != at + 1 ==> r[i] == b[i]
  {
    b[at := p.0][at + 1 := p.1]
  }

  /** `frame` with the BIN marker and the given counter and sample written at
      their offsets; all other bytes are kept. */
  function Embed(frame: seq<SChar>, counter: int, s: ImuSample): (r: seq<SChar>)
    requires |frame| == FrameLength && IsUInt16(counter) && ValidSample(s)
    ensures |r| == FrameLength
  {
    var m := frame[..MarkerStart] + BinMarker + frame[MarkerEnd..];
    var c := Put16(m, CounterAt, SplitUInt16(counter));
    var g := Put16(Put16(Put16(c, GyroXAt, SplitInt16(s.gyroX)), GyroYAt, SplitInt16(s.gyroY)), GyroZAt, SplitInt16(s.gyroZ));
    var a := Put16(Put16(Put16(g, AccelXAt, SplitInt16(s.accelX)), AccelYAt, SplitInt16(s.accelY)), AccelZAt, SplitInt16(s.accelZ));
    Put16(Put16(Put16(a, RollAt, SplitInt16(s.roll)), PitchAt, SplitInt16(s.pitch)), YawAt, SplitInt16(s.yaw))
  }

  /** Every valid counter and sample survives encoding into any 58-byte frame
      and decoding again. */
  lemma ClassifyEmbed(frame: seq<SChar>, counter: int, s: ImuSample)
    requires |frame| == FrameLength && IsUInt16(counter) && ValidSample(s)
    ensures Classify(Embed(frame, counter, s)) == Measurement(counter, s)
  {
    var r := Embed(frame, counter, s);
    assert r[MarkerStart..MarkerEnd] == BinMarker;
    CounterFieldOfSplit(counter);
    SignedFieldOfSplit(s.gyroX);
    SignedFieldOfSplit(s.gyroY);
    SignedFieldOfSplit(s.gyroZ);
    SignedFieldOfSplit(s.accelX);
    SignedFieldOfSplit(s.accelY);
    SignedFieldOfSplit(s.accelZ);
    SignedFieldOfSplit(s.roll);
    SignedFieldOfSplit(s.pitch);
    SignedFieldOfSplit(s.yaw);
  }

  /** Decoding loses nothing: re-encoding what a measurement frame decodes to
      gives the frame back. */
  lemma EmbedClassify(chunk: seq<SChar>)
    requires IsMeasurementFrame(chunk)
    ensures Classify(chunk).Measurement?
    ensures Embed(chunk, Classify(chunk).counter, Classify(chunk).sample) == chunk
  {
    SplitOfCounterField(chunk[CounterAt], chunk[CounterAt + 1]);
    SplitOfSignedField(chunk[GyroXAt], chunk[GyroXAt + 1]);
    SplitOfSignedField(chunk[GyroYAt], chunk[GyroYAt + 1]);
    SplitOfSignedField(chunk[GyroZAt], chunk[GyroZAt + 1]);
    SplitOfSignedField(chunk[AccelXAt], chunk[AccelXAt + 1]);
    SplitOfSignedField(chunk[AccelYAt], chunk[AccelYAt + 1]);
    SplitOfSignedField(chunk[AccelZAt], chunk[AccelZAt + 1]);
    SplitOfSignedField(chunk[RollAt], chunk[RollAt + 1]);
    SplitOfSignedField(chunk[PitchAt], chunk[PitchAt + 1]);
    SplitOfSignedField(chunk[YawAt], chunk[YawAt + 1]);
    var r := Embed(chunk, Classify(chunk).counter, Classify(chunk).sample);
    assert chunk[..MarkerStart] + BinMarker + chunk[MarkerEnd..] == chunk;
    assert forall i :: 0 <= i < FrameLength ==> r[i] == chunk[i];
  }

  // ---------------------------------------------------------------------------
  // The dispatch exactly as written, which tests the marker after only
  // `length > 0`

  /** `rbuf[i]` on a `std::string`: an element below `size()`, the terminating
      NUL at `size()`, and no defined value beyond it. */
  datatype Read = Value(c: SChar) | OutOfRange

  function CharAt(chunk: seq<SChar>, i: nat): Read {
    if i < |chunk| then Value(chunk[i]) else if i == |chunk| then Value(NUL) else OutOfRange
  }

  /** Evaluation of a short-circuit `&&` chain that either yields a truth
      value or reaches a read with no defined value at `index`. */
  datatype Eval = Truth(b: bool) | Undefined(index: nat)

  /** `rbuf[5] == m[0] && rbuf[6] == m[1] && ...` from position `k` of `m` on.
      A read with no defined value can only be one of the marker bytes still
      to be compared. */
  function TestMarkerAsWritten(chunk: seq<SChar>, marker: seq<SChar>, k: nat): (r: Eval)
    requires k <= |marker|
    ensures r.Undefined? ==> MarkerStart + k <= r.index < MarkerStart + |marker| && r.index > |chunk|
    decreases |marker| - k
  {
    if k == |marker| then Truth(true)
    else match CharAt(chunk, MarkerStart + k)
      case OutOfRange => Undefined(MarkerStart + k)
      case Value(c) => if c != marker[k] then Truth(false) else TestMarkerAsWritten(chunk, marker, k + 1)
  }

  /** The field extraction of the read loop, with the C bit expressions; it
      yields the arithmetic decode. */
  function DecodeSampleAsWritten(chunk: seq<SChar>): (s: ImuSample)
    requires |chunk| == FrameLength
    ensures s == DecodeSample(chunk)
  {
    SignedFieldAsWrittenIsSignedField(chunk[GyroXAt], chunk[GyroXAt + 1]);
    SignedFieldAsWrittenIsSignedField(chunk[GyroYAt], chunk[GyroYAt + 1]);
    SignedFieldAsWrittenIsSignedField(chunk[GyroZAt], chunk[GyroZAt + 1]);
    SignedFieldAsWrittenIsSignedField(chunk[AccelXAt], chunk[AccelXAt + 1]);
    SignedFieldAsWrittenIsSignedField(chunk[AccelYAt], chunk[AccelYAt + 1]);
    SignedFieldAsWrittenIsSignedField(chunk[AccelZAt], chunk[AccelZAt + 1]);
    SignedFieldAsWrittenIsSignedField(chunk[RollAt], chunk[RollAt + 1]);
    SignedFieldAsWrittenIsSignedField(chunk[PitchAt], chunk[PitchAt + 1]);
    SignedFieldAsWrittenIsSignedField(chunk[YawAt], chunk[YawAt + 1]);
    ImuSample(
      SignedFieldAsWritten(chunk[GyroXAt], chunk[GyroXAt + 1]),
      SignedFieldAsWritten(chunk[GyroYAt], chunk[GyroYAt + 1]),
      SignedFieldAsWritten(chunk[GyroZAt], chunk[GyroZAt + 1]),
      SignedFieldAsWritten(chunk[AccelXAt], chunk[AccelXAt + 1]),
      SignedFieldAsWritten(chunk[AccelYAt], chunk[AccelYAt + 1]),
      SignedFieldAsWritten(chunk[AccelZAt], chunk[AccelZAt + 1]),
      SignedFieldAsWritten(chunk[RollAt], chunk[RollAt + 1]),
      SignedFieldAsWritten(chunk[PitchAt], chunk[PitchAt + 1]),
      SignedFieldAsWritten(chunk[YawAt], chunk[YawAt + 1]))
  }

  /** The outcome of the read loop's dispatch as written: a frame, or the
      first read past the end of the string. */
  datatype Outcome = Defined(frame: Frame) | ReadPastEnd(index: nat)

  function ClassifyAsWritten(chunk: seq<SChar>): (r: Outcome)
    ensures r.ReadPastEnd? ==> MarkerStart <= r.index < MarkerEnd && r.index > |chunk|
    ensures r.Defined? && r.frame.Measurement? ==> |chunk| == FrameLength
    ensures r.Defined? && r.frame.VersionResponse? ==> r.frame.text == chunk
  {
    if |chunk| == 0 then Defined(Ignored)
    else match TestMarkerAsWritten(chunk, BinMarker, 0)
      case Undefined(i) => ReadPastEnd(i)
      case Truth(bin) =>
        if bin && |chunk| == FrameLength then
          Defined(Measurement(CounterFieldAsWritten(chunk[CounterAt], chunk[CounterAt + 1]), DecodeSampleAsWritten(chunk)))
        else match TestMarkerAsWritten(chunk, VerMarker, 0)
          case Undefined(i) => ReadPastEnd(i)
          case Truth(ver) => if ver then Defined(VersionResponse(chunk)) else Defined(Ignored)
  }

  /** With at least five bytes every marker test is defined and agrees with
      the slice comparison. */
  lemma {:induction false} TestMarkerDefined(chunk: seq<SChar>, marker: seq<SChar>, k: nat)
    requires |marker| == MarkerEnd - MarkerStart && k <= |marker| && NUL !in marker
    requires |chunk| >= MarkerStart + k
    ensures TestMarkerAsWritten(chunk, marker, k) ==
      Truth(|chunk| >= MarkerEnd && chunk[MarkerStart + k..MarkerEnd] == marker[k..])
    decreases |marker| - k
  {
    if k < |marker| && |chunk| > MarkerStart + k {
      TestMarkerDefined(chunk, marker, k + 1);
      if chunk[MarkerStart + k] == marker[k] && |chunk| >= MarkerEnd {
        assert chunk[MarkerStart + k..MarkerEnd] == [chunk[MarkerStart + k]] + chunk[MarkerStart + k + 1..MarkerEnd];
        assert marker[k..] == [marker[k]] + marker[k + 1..];
      } else if |chunk| >= MarkerEnd {
        assert chunk[MarkerStart + k..MarkerEnd][0] == chunk[MarkerStart + k];
      }
    }
  }

  /** As written, a non-empty chunk of at most four bytes (a short line such
      as "OK\r\n") makes the loop read `rbuf[5]`, past the end of the string. */
  lemma AsWrittenReadsPastEnd(chunk: seq<SChar>)
    ensures ClassifyAsWritten(chunk).ReadPastEnd? <==> 1 <= |chunk| < MarkerStart
    ensures ClassifyAsWritten(chunk).ReadPastEnd? ==> ClassifyAsWritten(chunk).index == MarkerStart
  {
    if |chunk| >= MarkerStart {
      TestMarkerDefined(chunk, BinMarker, 0);
      TestMarkerDefined(chunk, VerMarker, 0);
    }
  }

  lemma ShortLineReadsPastEnd()
    ensures ClassifyAsWritten(Ascii("OK\r\n")) == ReadPastEnd(5)
  {
    AsWrittenReadsPastEnd(Ascii("OK\r\n"));
  }

  /** All ten C field expressions of a 58-byte chunk equal the arithmetic
      decodes. The counter half is proved here; the sample half restates the
      ensures of `DecodeSampleAsWritten`, so that one call gives callers all
      ten fields. */
  lemma DecodeAsWrittenIsDecode(chunk: seq<SChar>)
    requires |chunk| == FrameLength
    ensures CounterFieldAsWritten(chunk[CounterAt], chunk[CounterAt + 1]) == DecodeCounter(chunk)
    ensures DecodeSampleAsWritten(chunk) == DecodeSample(chunk)
  {
    CounterFieldAsWrittenIsCounterField(chunk[CounterAt], chunk[CounterAt + 1]);
  }

  /** Wherever the code as written is defined, it does what `Classify` does. */
  lemma AsWrittenAgrees(chunk: seq<SChar>)
    requires !(1 <= |chunk| < MarkerStart)
    ensures ClassifyAsWritten(chunk) == Defined(Classify(chunk))
  {
    if |chunk| >= MarkerStart {
      TestMarkerDefined(chunk, BinMarker, 0);
      TestMarkerDefined(chunk, VerMarker, 0);
      if |chunk| == FrameLength {
        DecodeAsWrittenIsDecode(chunk);
      }
    }
  }
}
