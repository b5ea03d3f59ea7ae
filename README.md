# Tamagawa IMU serial driver: protocol core in Dafny

This project models the protocol logic of the Tamagawa IMU ROS driver
(`src/tag_serial_driver.cpp`). The logic has three parts:

- **Frame classification and field decoding.** Each chunk the line reader returns
  is tested for the `BIN,` marker at bytes 5..8 and a length of exactly 58 bytes.
  A chunk that passes is a measurement frame. Its ten 16-bit big-endian fields are
  read from fixed offsets (counter at 11/12, gyro at 15..20, acceleration at
  21..26, roll/pitch/yaw at 27..32). A chunk with the `VER,` marker is only logged.
  Everything else is dropped.
- **The read loop and its reusable state.** The globals `counter` and `raw_data`
  and the sample fields of `imu_msg` are overwritten in place, one field at a
  time, each time a measurement frame is accepted. The sample is then published.
  Roll, pitch and yaw are locals of the accepted branch in the code; what
  persists is `imu_msg.orientation`, set from those three values alone by
  `setRPY`. The class fields `roll`, `pitch` and `yaw` stand for that
  orientation.
  This is the class `Driver.TagSerialDriver`. Its methods `Step` (one loop
  iteration) and `Loop` (a sequence of chunks) are proved against the
  specification functions `Driver.Next`, `Driver.Run` and `Driver.Published`.
  A ghost `log` records every published sample.
- **Command serialisation.** The start-up command `$TSC,BIN,30\r\n` and the
  three topic callbacks (version query, offset cancel with a `%d` parameter,
  heading reset) are modelled as pure functions. Each returns the target, the
  buffer handed to `write` and the byte count passed with it.

Bytes are C `char`, taken as signed (as on x86-64). The type `Bytes.SChar`
covers -128..127. The two field formulas of the source are modelled bit by bit on
32-bit words in `Fields`:

- `((hi<<8)&0xFFFFFF00)|(lo&0xFF)`, whose result is stored into an `int`;
- `((hi<<8)&0x0000FF00)|(lo&0xFF)` for the counter.

They are proved equal to the arithmetic decodes `hi*256 + (lo mod 256)` (signed,
-32768..32767) and `(hi mod 256)*256 + (lo mod 256)` (unsigned, 0..65535). The
read loop (`Driver.ReadSigned`, `Driver.ReadCounter`) evaluates the bit-level
expressions.

Facts about the code that the model keeps:

- The counter is decoded unsigned (0..65535); the nine sample fields are signed.
- A chunk is whatever the line reader returned, trailing `\n` included. That is
  why the 58-byte length counts the CR LF.
- Rejected chunks carry no error reason. The code drops them silently.
- The version and heading-reset writes include the literal's terminating NUL
  (11 and 12 bytes).
- The offset-cancel write passes the whole 32-byte buffer. Bytes after the NUL
  are whatever the stack held before; they are the parameter `stale`.
- The counter is decoded but never published.

## Model

| member | source | states |
|---|---|---|
| Fields.SignedField | src/tag_serial_driver.cpp:184-208 | the signed field value always lies in -32768..32767 |
| Fields.CounterField | src/tag_serial_driver.cpp:183 | the counter value always lies in 0..65535 |
| Fields.SignedFieldAsWrittenIsSignedField | src/tag_serial_driver.cpp:184-208 | the C expression `((hi<<8)&0xFFFFFF00)\|(lo&0xFF)` on signed chars, stored into an `int`, equals `hi*256 + (lo mod 256)` |
| Fields.CounterFieldAsWrittenIsCounterField | src/tag_serial_driver.cpp:183 | the C expression `((hi<<8)&0x0000FF00)\|(lo&0xFF)` equals `(hi mod 256)*256 + (lo mod 256)` |
| Fields.SignedFieldAsWritten | src/tag_serial_driver.cpp:184-208 | the C signed-field expression on two chars always fits a 32-bit `int` (`SignedFieldAsWrittenIsSignedField` gives its value) |
| Fields.CounterFieldAsWritten | src/tag_serial_driver.cpp:183 | the C counter expression on two chars always fits a 32-bit `int` (`CounterFieldAsWrittenIsCounterField` gives its value) |
| Fields.SignedFieldOfSplit | src/tag_serial_driver.cpp:184-208 | splitting any int16 into its signed high byte and its low byte, then decoding, gives the value back |
| Fields.SplitOfSignedField | src/tag_serial_driver.cpp:184-208 | decoding two bytes, then splitting, gives the same two bytes back (the decode is injective) |
| Fields.CounterFieldOfSplit | src/tag_serial_driver.cpp:183 | splitting any uint16 and decoding it as the counter gives the value back |
| Fields.SplitOfCounterField | src/tag_serial_driver.cpp:183 | the counter decode is injective on byte pairs |
| Fields.CounterVersusSigned | src/tag_serial_driver.cpp:183-184 | the counter is the signed decode plus 65536 exactly when the high byte is negative; the two agree iff the high byte is non-negative |
| Frames.DecodeSample | src/tag_serial_driver.cpp:184-210 | every sample decoded from a 58-byte chunk has all nine fields in int16 range (reads at offsets 15..32 only) |
| Frames.DecodeCounter | src/tag_serial_driver.cpp:183 | the counter decoded from a 58-byte chunk is in uint16 range |
| Frames.Classify | src/tag_serial_driver.cpp:178-219 | a chunk is a measurement iff its length is 58 and bytes 5..8 are `BIN,`; it is a version response iff it is not a measurement and bytes 5..8 are `VER,`, and then the text is the chunk; decoded fields are in range; no read outside the chunk for any length |
| Frames.ClassifyEmbed | src/tag_serial_driver.cpp:179-210 | writing the marker and any valid counter and sample into any 58-byte frame, then classifying, yields exactly that counter and sample |
| Frames.EmbedClassify | src/tag_serial_driver.cpp:179-210 | re-encoding what a measurement frame decodes to reproduces the frame byte for byte |
| Frames.MarkerLiterals | src/tag_serial_driver.cpp:179-217 | the marker constants are the ASCII bytes of `BIN,` and `VER,` |
| Frames.TestMarkerDefined | src/tag_serial_driver.cpp:179-217 | with at least five bytes the short-circuit marker test is defined and equals the slice comparison of bytes 5..8 |
| Frames.TestMarkerAsWritten | src/tag_serial_driver.cpp:179-217 | the short-circuit chain `rbuf[5] == m[0] && ... && rbuf[8] == m[3]` with `std::string` reads, defined up to `size()`: a read with no defined value can only be a marker byte still to be compared, past `size()` |
| Frames.ClassifyAsWritten | src/tag_serial_driver.cpp:178-219 | the dispatch exactly as written: any undefined read is of a marker byte 5..8 beyond `size()`; a measurement only for 58-byte chunks; a version response carries the chunk (`AsWrittenReadsPastEnd` and `AsWrittenAgrees` state when it is defined and what it yields) |
| Frames.DecodeSampleAsWritten | src/tag_serial_driver.cpp:184-210 | the nine C field expressions at offsets 15..32 yield exactly the arithmetic decode `DecodeSample` |
| Frames.AsWrittenReadsPastEnd | src/tag_serial_driver.cpp:178-179 | the dispatch as written reads past the end of the string iff the chunk has 1..4 bytes, and the first such read is `rbuf[5]` |
| Frames.ShortLineReadsPastEnd | src/tag_serial_driver.cpp:178-179 | the 4-byte line `OK\r\n` makes the code as written read `rbuf[5]` |
| Frames.DecodeAsWrittenIsDecode | src/tag_serial_driver.cpp:183-210 | the bit-level extraction of all ten fields equals the arithmetic decode |
| Frames.AsWrittenAgrees | src/tag_serial_driver.cpp:178-219 | wherever the code as written is defined (empty chunks, and chunks of five bytes or more), it produces exactly `Classify`'s result |
| Driver.ReadSigned | src/tag_serial_driver.cpp:184 | evaluating the C signed-field expression at an offset yields the signed 16-bit big-endian field there |
| Driver.ReadCounter | src/tag_serial_driver.cpp:183 | evaluating the C counter expression yields the unsigned 16-bit big-endian field |
| Driver.Next | src/tag_serial_driver.cpp:178-219 | a measurement chunk sets `counter` to its counter, the sample to its decode and `raw_data` to the yaw; any other chunk leaves the globals unchanged |
| Driver.Run | src/tag_serial_driver.cpp:167-221 | the globals after a whole stream, chunk by chunk through `Next`; `RunWithoutFrames`, `RunAppend`, `RunEndsWithMeasurement` and `NonMeasurementInvisible` state its properties, and `Loop` is proved against it |
| Driver.Published | src/tag_serial_driver.cpp:167-215 | the samples published for a stream: at most one per chunk (`PublishedInOrder` states which ones, in order) |
| Driver.RunWithoutFrames | src/tag_serial_driver.cpp:178-219 | a stretch of the stream without a measurement frame leaves the globals as they were |
| Driver.PublishedValid | src/tag_serial_driver.cpp:183-215 | every published sample has all nine fields in int16 range |
| Driver.AcceptedIndices | src/tag_serial_driver.cpp:167-215 | every listed position is in range and holds a measurement frame |
| Driver.TagSerialDriver.constructor | src/tag_serial_driver.cpp:73-77 | globals start at zero (zero rates, accelerations and angles, matching the identity orientation set at lines 162-165) with nothing published |
| Driver.TagSerialDriver.UpdateSample | src/tag_serial_driver.cpp:180-215 | the accepted branch sets `counter`, `raw_data` and all sample fields to the chunk's decode and appends that sample to the published log |
| Driver.TagSerialDriver.UpdateGyro | src/tag_serial_driver.cpp:184-192 | the gyro fields become the signed fields at 15, 17, 19; `raw_data` holds the last; nothing else changes |
| Driver.TagSerialDriver.UpdateAccel | src/tag_serial_driver.cpp:193-198 | the acceleration fields become the signed fields at 21, 23, 25; `raw_data` holds the last; nothing else changes |
| Driver.TagSerialDriver.UpdateAttitude | src/tag_serial_driver.cpp:201-210 | roll, pitch, yaw become the signed fields at 27, 29, 31; `raw_data` holds the yaw; nothing else changes |
| Driver.TagSerialDriver.Step | src/tag_serial_driver.cpp:167-220 | one loop iteration: the new globals are `Next` of the old ones; exactly one sample is published iff the chunk is a measurement frame; a `VER,` chunk is only logged; every other chunk (empty included) changes nothing |
| Driver.TagSerialDriver.Loop | src/tag_serial_driver.cpp:167-221 | after a sequence of chunks the globals are `Run` of the old ones and the published log is extended by `Published(chunks)` |
| Driver.PublishedAppend | src/tag_serial_driver.cpp:167-215 | what is published for two consecutive stretches of the stream is what each publishes, concatenated |
| Driver.PublishedSnoc | src/tag_serial_driver.cpp:167-215 | one more chunk adds its sample exactly when it is a measurement frame |
| Driver.PublishedInOrder | src/tag_serial_driver.cpp:167-215 | one sample per measurement chunk: the k-th published sample is the decode of the k-th measurement chunk |
| Driver.AcceptedIndicesExact | src/tag_serial_driver.cpp:167-215 | the accepted positions increase strictly and are exactly the positions of measurement frames |
| Driver.NonMeasurementInvisible | src/tag_serial_driver.cpp:178-219 | removing a non-measurement chunk from anywhere in the stream changes neither what is published nor the final globals |
| Driver.RunAppend | src/tag_serial_driver.cpp:167-221 | running two stretches of the stream is running the second from the state the first leaves |
| Driver.RunEndsWithMeasurement | src/tag_serial_driver.cpp:179-215 | after a measurement chunk the globals hold that chunk's decode, whatever came before |
| Driver.BackToBack | src/tag_serial_driver.cpp:167-215 | two back-to-back valid frames publish exactly their two samples, in order, whatever their counters |
| Commands.Decimal | src/tag_serial_driver.cpp:109 | the decimal text of n is canonical digits (no leading zero) whose value is n |
| Commands.ParseFormatInt | src/tag_serial_driver.cpp:109 | the `%d` text of any integer reads back as that integer |
| Commands.FormatParseInt | src/tag_serial_driver.cpp:109 | any text accepted as an integer is exactly the `%d` text of its value |
| Commands.FormatInt | src/tag_serial_driver.cpp:109 | the `%d` text starts with `-` iff the number is negative, followed by canonical digits |
| Commands.FormatInt32Length | src/tag_serial_driver.cpp:108-109 | the `%d` text of a 32-bit int is at most 11 characters |
| Commands.StartLiteral | src/tag_serial_driver.cpp:156 | the start command bytes spell `$TSC,BIN,30\r\n` |
| Commands.VersionLiteral | src/tag_serial_driver.cpp:101 | the version request bytes spell `$TSC,VER\r\n` |
| Commands.OffsetCancelLiteral | src/tag_serial_driver.cpp:109 | the offset-cancel prefix bytes spell `$TSC,OFC,` |
| Commands.HeadingResetLiteral | src/tag_serial_driver.cpp:116 | the heading-reset bytes spell `$TSC,HRST\r\n` |
| Commands.CommandText | src/tag_serial_driver.cpp:99-158 | every command line ends in CR LF |
| Commands.ParseCommandText | src/tag_serial_driver.cpp:99-158 | every command line reads back as the command it was built from, so the four kinds and all offset parameters give distinct bytes |
| Commands.CommandTextOfParse | src/tag_serial_driver.cpp:99-158 | a line the model's reference reader `ParseCommand` accepts is exactly that command's line |
| Commands.CallbackChannelAsWritten | src/tag_serial_driver.cpp:73-117 | as written the callbacks write to descriptor `fd`, which is 0 and not the serial port the start command goes to |
| Commands.CallbackChannel | src/tag_serial_driver.cpp:149-158 | the intended target of the callbacks is the port the start command goes to |
| Commands.CallbacksMissThePort | src/tag_serial_driver.cpp:99-119 | as written each of the three requests goes to descriptor 0, not to the start command's port |
| Commands.CallbacksReachThePort | src/tag_serial_driver.cpp:99-119 | on the intended target each request goes to the port, with the same requested bytes |
| Commands.StartCommand | src/tag_serial_driver.cpp:156-158 | the start-up write passes the serial port 13 bytes, `$TSC,BIN,30\r\n`, and no NUL |
| Commands.ReceiveVerReq | src/tag_serial_driver.cpp:99-104 | the version request passes `write` 11 bytes, the whole array: the command line followed by its NUL |
| Commands.ReceiveHeadingResetReq | src/tag_serial_driver.cpp:114-119 | the heading reset passes `write` 12 bytes, the whole array: the command line followed by its NUL |
| Commands.ReceiveOffsetCancelReq | src/tag_serial_driver.cpp:106-112 | all 32 buffer bytes are passed to `write`; the line with its NUL is at most 23 bytes and comes first; the rest are the stale buffer bytes |

## Left out

- `serial_setup` (which `main` never calls), the termios configuration, `open`/`ioctl`, and the serial-port options (115200 baud, 8N1, no flow control): OS and library I/O.
- `boost::asio::read_until` (line 171): a blocking library read. Chunks are given inputs. The model does not require them to end at the first `\n`; the read can return bytes past the delimiter, and the code keeps them. Nor does it model the splitting: a binary frame holding a 0x0A byte (a counter low byte of 10, say) usually does not arrive as one 58-byte chunk, because the read stops once the buffer holds that byte (it arrives whole only when one underlying read happens to deliver the rest of the frame too), so `Frames.ClassifyEmbed` and `Driver.BackToBack` are about chunks already delimited as whole frames.
- `write`/`write_some`: modelled only as the target, buffer and byte count passed (`Commands.Requested`). Either may accept fewer bytes than asked; the code ignores the count returned, and the model does not say what reaches the device.
- C++ semantics the field decode assumes: `char` is signed (on ABIs where it is unsigned, AArch64 for one, the nine sample fields would decode to 0..65535); `hi << 8` on a negative `char` is the two's-complement shift (undefined before C++20); storing the `unsigned` result of `& 0xFFFFFF00` into `int raw_data` wraps modulo 2^32 (implementation-defined before C++20). These are C++20 semantics, which GCC and Clang also give on x86-64.
- The device's own parser of command lines is not part of this model; `Commands.ParseCommand` is a reference reader defined here.
- `ros::init`, the publisher and subscribers, `ros::spinOnce`, `ros::Rate`, `ros::ok()`: framework plumbing. The loop runs until `ros::ok()` is false; it is modelled over a finite sequence of chunks. How the callbacks interleave with reads is not modelled.
- `shutdown_cmd` and signal handling: concurrency and OS interaction.
- `ROS_INFO`/`ROS_DEBUG` output, the header `frame_id` and the timestamp: logging and clocks. A logged version response appears only as the `Log` event of `Step`.
- Physical-unit scaling (`raw * 200/2^15 * pi/180` etc.) and `tf2::Quaternion::setRPY`: floating point and a foreign library. The sample stays in raw counts. The identity quaternion set at start-up appears only as the all-zero initial sample.
- `receive_ver_req` and `receive_heading_reset_req` ignore their message argument. Their models take only the write target.
- Commands.ReceiveOffsetCancelReq: the bytes after the NUL are a free parameter; what the stack held there is not modelled.

## Findings

| source | as written | input that shows it | evidently intended | confidence | as-written member | corrected member |
|---|---|---|---|---|---|---|
| src/tag_serial_driver.cpp:178-179 | the marker bytes `rbuf[5]`..`rbuf[8]` are read after only `length > 0`; the `length == 58` test comes last | any chunk of 1..4 bytes, e.g. the line `OK\r\n`: `rbuf[5]` is past `size()`, which is undefined behaviour for `std::string` (lengths 5..8 read the terminating NUL, which is defined) | require at least 9 bytes before testing the marker | not executed; the index is certainly out of range, but in practice the read usually hits the string's own small buffer and is harmless | Frames.ClassifyAsWritten | Frames.Classify |
| src/tag_serial_driver.cpp:73-117 | the three callbacks pass the global `fd` to `write`; it is never assigned (`serial_setup` is never called, and at line 81 it opens into a local `fd`), so it stays 0 | any message on `receive_ver_req`: 11 bytes go to descriptor 0, not to the serial port opened at line 149 | the requests go to the serial port, as the start command at line 158 does | not executed; that `fd` is never assigned is certain from the text; the write misses the port only if descriptor 0 was open at start-up (with stdin closed, the `open` inside the `serial_port` constructor at line 149 could itself return 0) | Commands.CallbacksMissThePort | Commands.CallbackChannel |

`Frames.AsWrittenReadsPastEnd` and `Frames.ShortLineReadsPastEnd` exhibit the out-of-range read of `Frames.ClassifyAsWritten`.
`Frames.Classify` checks the length first, so every read it makes is in range
for every chunk length. Dafny checks this. `Frames.AsWrittenAgrees` proves that
`Classify` gives the same result as the code wherever the code is defined.
`Driver.TagSerialDriver.Step` uses this corrected guard.
`Commands.CallbacksReachThePort` proves that on the intended target the three
requests go to the start command's port with unchanged bytes.
