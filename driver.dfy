/** The read loop of the driver: the globals `counter`, `raw_data` and the
    reusable `imu_msg` (kept here as raw counts), overwritten field by field
    whenever a measurement frame is accepted, and the stream of published
    samples. */
module Driver {
  import opened Bytes
  import opened Fields
  import opened Frames

  /** The values of the driver's globals that the read loop writes. */
  datatype State = State(counter: int, rawData: int, sample: ImuSample)

  /** What one iteration of the loop does visibly. */
  datatype Event = Publish(sample: ImuSample) | Log(text: seq<SChar>) | Silent

  /** The effect of one chunk on the globals: a measurement frame overwrites
      all of them, whatever they held; any other chunk leaves them alone.
      `raw_data` ends up holding the last field decoded, the yaw. */
  function Next(st: State, chunk: seq<SChar>): (r: State)
    ensures IsMeasurementFrame(chunk) ==>
      r.counter == Classify(chunk).counter && r.sample == Classify(chunk).sample && r.rawData == r.sample.yaw
    ensures !IsMeasurementFrame(chunk) ==> r == st
  {
    match Classify(chunk)
    case Measurement(c, s) => State(c, s.yaw, s)
    case _ => st
  }

  /** The globals after a whole sequence of chunks. */
  function Run(st: State, chunks: seq<seq<SChar>>): State
    decreases |chunks|
  {
    if chunks == [] then st else Run(Next(st, chunks[0]), chunks[1..])
  }

  /** The sample one chunk publishes: its decode if it is a measurement
      frame, nothing otherwise. */
  function Emitted(chunk: seq<SChar>): seq<ImuSample> {
    if IsMeasurementFrame(chunk) then [Classify(chunk).sample] else []
  }

  /** The samples published for a sequence of chunks, in arrival order: at
      most one per chunk. */
  function Published(chunks: seq<seq<SChar>>): (r: seq<ImuSample>)
    ensures |r| <= |chunks|
    decreases |chunks|
  {
    if chunks == [] then []
    else Emitted(chunks[0]) + Published(chunks[1..])
  }

  /** The positions of the measurement frames in a sequence of chunks. */
  function AcceptedIndices(chunks: seq<seq<SChar>>): (r: seq<nat>)
    ensures forall k :: 0 <= k < |r| ==> r[k] < |chunks| && IsMeasurementFrame(chunks[r[k]])
    decreases |chunks|
  {
    if chunks == [] then []
    else
      var rest := AcceptedIndices(chunks[..|chunks| - 1]);
      if IsMeasurementFrame(chunks[|chunks| - 1]) then rest + [|chunks| - 1] else rest
  }

  /** `((rbuf[at] << 8) & 0xFFFFFF00) | (rbuf[at + 1] & 0x000000FF)`, stored
      into the `int` `raw_data`: the signed 16-bit big-endian field at `at`. */
  method ReadSigned(rbuf: seq<SChar>, at: nat) returns (v: int)
    requires at + 1 < |rbuf|
    ensures v == SignedField(rbuf[at], rbuf[at + 1])
  {
    v := SignedFieldAsWritten(rbuf[at], rbuf[at + 1]);
    SignedFieldAsWrittenIsSignedField(rbuf[at], rbuf[at + 1]);
  }

  /** `((rbuf[at] << 8) & 0x0000FF00) | (rbuf[at + 1] & 0x000000FF)`: the
      unsigned 16-bit big-endian field at `at`. */
  method ReadCounter(rbuf: seq<SChar>, at: nat) returns (v: int)
    requires at + 1 < |rbuf|
    ensures v == CounterField(rbuf[at], rbuf[at + 1])
  {
    v := CounterFieldAsWritten(rbuf[at], rbuf[at + 1]);
    CounterFieldAsWrittenIsCounterField(rbuf[at], rbuf[at + 1]);
  }

  class TagSerialDriver {
    var counter: int
    var rawData: int
    var gyroX: int
    var gyroY: int
    var gyroZ: int
    var accelX: int
    var accelY: int
    var accelZ: int
    // `roll`, `pitch` and `yaw` are locals of the accepted branch in the
    // driver; they stand here for `imu_msg.orientation`, which `setRPY`
    // computes from these three values alone.
    var roll: int
    var pitch: int
    var yaw: int
    /** Every sample handed to the publisher so far. */
    ghost var log: seq<ImuSample>

    function Sample(): ImuSample
      reads this
    {
      ImuSample(gyroX, gyroY, gyroZ, accelX, accelY, accelZ, roll, pitch, yaw)
    }

    function Globals(): State
      reads this
    {
      State(counter, rawData, Sample())
    }

    /** Zero-initialised globals; zero angular rate, acceleration and
        roll/pitch/yaw is the identity orientation `imu_msg` starts with. */
    constructor ()
      ensures Globals() == State(0, 0, ImuSample(0, 0, 0, 0, 0, 0, 0, 0, 0))
      ensures log == []
    {
      counter, rawData := 0, 0;
      gyroX, gyroY, gyroZ := 0, 0, 0;
      accelX, accelY, accelZ := 0, 0, 0;
      roll, pitch, yaw := 0, 0, 0;
      log := [];
    }

    /** The accepted branch of the read loop: `counter`, `raw_data` and the
        sample fields overwritten, field by field, from a 58-byte chunk, and
        the sample published. */
    method UpdateSample(rbuf: seq<SChar>)
      requires |rbuf| == FrameLength
      modifies this
      ensures Globals() == State(DecodeCounter(rbuf), DecodeSample(rbuf).yaw, DecodeSample(rbuf))
      ensures log == old(log) + [DecodeSample(rbuf)]
    {
      counter := ReadCounter(rbuf, 11);
      UpdateGyro(rbuf);
      UpdateAccel(rbuf);
      UpdateAttitude(rbuf);
      ghost var published := Sample();
      assert published == DecodeSample(rbuf);
      log := log + [published];
    }

    /** The angular velocity fields of the accepted branch; `raw_data` keeps the
        last of them. */
    method UpdateGyro(rbuf: seq<SChar>)
      requires |rbuf| == FrameLength
      modifies this`rawData, this`gyroX, this`gyroY, this`gyroZ
      ensures gyroX == SignedField(rbuf[15], rbuf[16])
      ensures gyroY == SignedField(rbuf[17], rbuf[18])
      ensures gyroZ == SignedField(rbuf[19], rbuf[20])
      ensures rawData == gyroZ
    {
      rawData := ReadSigned(rbuf, 15);
      gyroX := rawData;
      rawData := ReadSigned(rbuf, 17);
      gyroY := rawData;
      rawData := ReadSigned(rbuf, 19);
      gyroZ := rawData;
    }

    /** The linear acceleration fields of the accepted branch; `raw_data` keeps the
        last of them. */
    method UpdateAccel(rbuf: seq<SChar>)
      requires |rbuf| == FrameLength
      modifies this`rawData, this`accelX, this`accelY, this`accelZ
      ensures accelX == SignedField(rbuf[21], rbuf[22])
      ensures accelY == SignedField(rbuf[23], rbuf[24])
      ensures accelZ == SignedField(rbuf[25], rbuf[26])
      ensures rawData == accelZ
    {
      rawData := ReadSigned(rbuf, 21);
      accelX := rawData;
      rawData := ReadSigned(rbuf, 23);
      accelY := rawData;
      rawData := ReadSigned(rbuf, 25);
      accelZ := rawData;
    }

    /** The roll, pitch and yaw fields of the accepted branch; `raw_data` keeps the
        last of them. */
    method UpdateAttitude(rbuf: seq<SChar>)
      requires |rbuf| == FrameLength
      modifies this`rawData, this`roll, this`pitch, this`yaw
      ensures roll == SignedField(rbuf[27], rbuf[28])
      ensures pitch == SignedField(rbuf[29], rbuf[30])
      ensures yaw == SignedField(rbuf[31], rbuf[32])
      ensures rawData == yaw
    {
      rawData := ReadSigned(rbuf, 27);
      roll := rawData;
      rawData := ReadSigned(rbuf, 29);
      pitch := rawData;
      rawData := ReadSigned(rbuf, 31);
      yaw := rawData;
    }

    /** One iteration of the read loop on the chunk `rbuf`. */
    method Step(rbuf: seq<SChar>) returns (event: Event)
      modifies this
      ensures Globals() == Next(old(Globals()), rbuf)
      ensures log == old(log) + Emitted(rbuf)
      ensures event == match Classify(rbuf)
        case Measurement(_, s) => Publish(s)
        case VersionResponse(t) => Log(t)
        case Ignored => Silent
    {
      var length := |rbuf|;
      event := Silent;
      if length > 0 {
        if length >= MarkerEnd && rbuf[5] == 0x42 && rbuf[6] == 0x49 && rbuf[7] == 0x4E && rbuf[8] == 0x2C
          && length == FrameLength
        {
          assert rbuf[MarkerStart..MarkerEnd] == BinMarker;
          assert Classify(rbuf) == Measurement(DecodeCounter(rbuf), DecodeSample(rbuf));
          UpdateSample(rbuf);
          event := Publish(Sample());
        } else if length >= MarkerEnd && rbuf[5] == 0x56 && rbuf[6] == 0x45 && rbuf[7] == 0x52 && rbuf[8] == 0x2C {
          assert rbuf[MarkerStart..MarkerEnd] == VerMarker;
          assert Classify(rbuf) == VersionResponse(rbuf);
          event := Log(rbuf);
        } else {
          assert !HasMarker(rbuf, BinMarker) || length != FrameLength;
          assert !HasMarker(rbuf, VerMarker);
          assert Classify(rbuf) == Ignored;
        }
      } else {
        assert Classify(rbuf) == Ignored;
      }
    }

    /** The read loop over the chunks the line reader returns, in order. */
    method Loop(chunks: seq<seq<SChar>>)
      modifies this
      ensures Globals() == Run(old(Globals()), chunks)
      ensures log == old(log) + Published(chunks)
    {
      var i := 0;
      while i < |chunks|
        invariant 0 <= i <= |chunks|
        invariant Run(old(Globals()), chunks) == Run(Globals(), chunks[i..])
        invariant log == old(log) + Published(chunks[..i])
      {
        ghost var st, done := Globals(), log;
        var _ := Step(chunks[i]);
        LoopStep(old(Globals()), st, Globals(), old(log), done, log, chunks, i);
        i := i + 1;
      }
      assert chunks[..i] == chunks;
    }
  }

  // ---------------------------------------------------------------------------
  // Properties of the loop

  /** A stretch of the stream without a measurement frame leaves the globals
      as they were. */
  lemma {:induction false} RunWithoutFrames(st: State, chunks: seq<seq<SChar>>)
    requires forall i :: 0 <= i < |chunks| ==> !IsMeasurementFrame(chunks[i])
    ensures Run(st, chunks) == st
    decreases |chunks|
  {
    if chunks != [] {
      assert !IsMeasurementFrame(chunks[0]);
      RunWithoutFrames(st, chunks[1..]);
    }
  }

  /** Every published sample has its fields in int16 range. */
  lemma {:induction false} PublishedValid(chunks: seq<seq<SChar>>)
    ensures forall k :: 0 <= k < |Published(chunks)| ==> ValidSample(Published(chunks)[k])
    decreases |chunks|
  {
    if chunks != [] {
      PublishedValid(chunks[1..]);
    }
  }

  /** One iteration of `Loop` keeps its invariants: the globals and the log
      after chunk `i` are those of the stream's first `i + 1` chunks. */
  lemma LoopStep(st0: State, st: State, st': State, log0: seq<ImuSample>, log: seq<ImuSample>,
                 log': seq<ImuSample>, chunks: seq<seq<SChar>>, i: nat)
    requires i < |chunks|
    requires Run(st0, chunks) == Run(st, chunks[i..]) && st' == Next(st, chunks[i])
    requires log == log0 + Published(chunks[..i]) && log' == log + Emitted(chunks[i])
    ensures Run(st0, chunks) == Run(st', chunks[i + 1..])
    ensures log' == log0 + Published(chunks[..i + 1])
  {
    assert chunks[i..][1..] == chunks[i + 1..];
    assert chunks[..i + 1] == chunks[..i] + [chunks[i]];
    PublishedSnoc(chunks[..i], chunks[i]);
  }

  lemma {:induction false} PublishedAppend(a: seq<seq<SChar>>, b: seq<seq<SChar>>)
    ensures Published(a + b) == Published(a) + Published(b)
    decreases |a|
  {
    if a != [] {
      assert (a + b)[0] == a[0];
      assert (a + b)[1..] == a[1..] + b;
      PublishedAppend(a[1..], b);
    } else {
      assert a + b == b;
    }
  }

  lemma PublishedSnoc(a: seq<seq<SChar>>, c: seq<SChar>)
    ensures Published(a + [c]) == Published(a) + Emitted(c)
  {
    PublishedAppend(a, [c]);
    assert [c][1..] == [];
  }

  /** Exactly one sample per measurement chunk, in arrival order: the k-th
      sample published is the decode of the k-th measurement chunk. */
  lemma {:induction false} PublishedInOrder(chunks: seq<seq<SChar>>)
    ensures |Published(chunks)| == |AcceptedIndices(chunks)|
    ensures forall k :: 0 <= k < |Published(chunks)| ==>
      Published(chunks)[k] == Classify(chunks[AcceptedIndices(chunks)[k]]).sample
    decreases |chunks|
  {
    if chunks != [] {
      var init, last := chunks[..|chunks| - 1], chunks[|chunks| - 1];
      assert chunks == init + [last];
      PublishedInOrder(init);
      PublishedSnoc(init, last);
      assert forall k :: 0 <= k < |AcceptedIndices(init)| ==> chunks[AcceptedIndices(init)[k]] == init[AcceptedIndices(init)[k]];
    }
  }

  /** The accepted positions are increasing and are exactly the positions of
      measurement frames. */
  lemma {:induction false} AcceptedIndicesExact(chunks: seq<seq<SChar>>)
    ensures forall j, k :: 0 <= j < k < |AcceptedIndices(chunks)| ==> AcceptedIndices(chunks)[j] < AcceptedIndices(chunks)[k]
    ensures forall i :: 0 <= i < |chunks| ==> (i in AcceptedIndices(chunks) <==> IsMeasurementFrame(chunks[i]))
    decreases |chunks|
  {
    if chunks != [] {
      var init := chunks[..|chunks| - 1];
      AcceptedIndicesExact(init);
      assert forall i :: 0 <= i < |init| ==> chunks[i] == init[i];
    }
  }

  /** A chunk that is not a measurement frame can be dropped from anywhere in
      the stream without changing what is published or the final globals. */
  lemma NonMeasurementInvisible(st: State, a: seq<seq<SChar>>, c: seq<SChar>, b: seq<seq<SChar>>)
    requires !IsMeasurementFrame(c)
    ensures Published(a + [c] + b) == Published(a + b)
    ensures Run(st, a + [c] + b) == Run(st, a + b)
  {
    assert Published(a + [c] + b) == Published(a + b) by {
      PublishedAppend(a + [c], b);
      PublishedSnoc(a, c);
      PublishedAppend(a, b);
    }
    assert Run(st, a + [c] + b) == Run(st, a + b) by {
      RunAppend(st, a + [c], b);
      RunAppend(st, a, [c]);
      assert [c][1..] == [];
      RunAppend(st, a, b);
    }
  }

  lemma {:induction false} RunAppend(st: State, a: seq<seq<SChar>>, b: seq<seq<SChar>>)
    ensures Run(st, a + b) == Run(Run(st, a), b)
    decreases |a|
  {
    if a != [] {
      assert (a + b)[0] == a[0];
      assert (a + b)[1..] == a[1..] + b;
      RunAppend(Next(st, a[0]), a[1..], b);
    } else {
      assert a + b == b;
    }
  }

  /** After a measurement chunk the globals hold that chunk's decode alone,
      whatever came before it. */
  lemma RunEndsWithMeasurement(st: State, a: seq<seq<SChar>>, c: seq<SChar>)
    requires IsMeasurementFrame(c)
    ensures Run(st, a + [c]) == State(Classify(c).counter, Classify(c).sample.yaw, Classify(c).sample)
  {
    RunAppend(st, a, [c]);
  }

  /** Two back-to-back measurement frames publish exactly their two samples,
      in order, whatever their counters. */
  lemma BackToBack(f1: seq<SChar>, c1: int, s1: ImuSample, f2: seq<SChar>, c2: int, s2: ImuSample)
    requires |f1| == FrameLength && IsUInt16(c1) && ValidSample(s1)
    requires |f2| == FrameLength && IsUInt16(c2) && ValidSample(s2)
    ensures Published([Embed(f1, c1, s1), Embed(f2, c2, s2)]) == [s1, s2]
  {
    ClassifyEmbed(f1, c1, s1);
    ClassifyEmbed(f2, c2, s2);
    var cs := [Embed(f1, c1, s1), Embed(f2, c2, s2)];
    assert cs[1..][1..] == [];
    assert Published(cs[1..]) == [s2];
  }
}
