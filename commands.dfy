/** The commands the driver hands to `write`: the streaming start command
    passed to the serial port once at start-up and the three requests
    triggered by subscribed topics, each as the target, the buffer and the
    byte count of the call.

    What reaches the device is not modelled: a write may accept fewer bytes
    than asked, and the driver ignores the count it returns. */
module Commands {
  import opened Bytes

  datatype Option<T> = None | Some(value: T)

  /** The payload of a `std_msgs/Int32` message. */
  newtype Int32 = x: int | -0x8000_0000 <= x < 0x8000_0000

  const Minus: SChar := 0x2D  // '-'
  const Zero: SChar := 0x30   // '0'

  // ---------------------------------------------------------------------------
  // `%d`: decimal text of an integer, and its reading back

  predicate IsDigit(c: SChar) { Zero <= c <= Zero + 9 }

  predicate AllDigits(s: seq<SChar>) {
    forall i :: 0 <= i < |s| ==> IsDigit(s[i])
  }

  /** Digits with no superfluous leading zero. */
  predicate Canonical(s: seq<SChar>) {
    |s| >= 1 && AllDigits(s) && (s[0] == Zero ==> |s| == 1)
  }

  /** The number a string of decimal digits denotes. */
  function DigitsValue(s: seq<SChar>): nat
    requires AllDigits(s)
    decreases |s|
  {
    if s == [] then 0 else DigitsValue(s[..|s| - 1]) * 10 + (s[|s| - 1] - Zero) as int
  }

  /** The decimal digits of `n`, most significant first. */
  function Decimal(n: nat): (r: seq<SChar>)
    ensures Canonical(r) && DigitsValue(r) == n
    decreases n
  {
    if n < 10 then [Zero + n as SChar]
    else
      var r := Decimal(n / 10) + [Zero + (n % 10) as SChar];
      assert r[..|r| - 1] == Decimal(n / 10);
      r
  }

  /** What `sprintf` writes for `%d`: a leading '-' exactly for negative
      numbers, then canonical digits. */
  function FormatInt(p: int): (r: seq<SChar>)
    ensures |r| >= 1
    ensures r[0] == Minus <==> p < 0
    ensures p < 0 ==> Canonical(r[1..])
    ensures p >= 0 ==> Canonical(r)
  {
    if p < 0 then [Minus] + Decimal(-p) else Decimal(p)
  }

  /** The reading of a decimal integer that accepts only what `%d` writes:
      an optional '-', then canonical digits, and no "-0". */
  function ParseInt(s: seq<SChar>): Option<int> {
    if |s| >= 1 && s[0] == Minus then
      if Canonical(s[1..]) && DigitsValue(s[1..]) != 0 then Some(-(DigitsValue(s[1..]) as int)) else None
    else if Canonical(s) then Some(DigitsValue(s) as int)
    else None
  }

  lemma {:induction false} LeadingDigitPositive(s: seq<SChar>)
    requires AllDigits(s) && |s| >= 1 && s[0] != Zero
    ensures DigitsValue(s) >= 1
    decreases |s|
  {
    if |s| > 1 {
      LeadingDigitPositive(s[..|s| - 1]);
    }
  }

  /** Canonical digits are exactly what `Decimal` produces. */
  lemma {:induction false} DecimalOfDigitsValue(s: seq<SChar>)
    requires Canonical(s)
    ensures Decimal(DigitsValue(s)) == s
    decreases |s|
  {
    if |s| > 1 {
      var init := s[..|s| - 1];
      LeadingDigitPositive(init);
      DecimalOfDigitsValue(init);
      assert s == init + [s[|s| - 1]];
    }
  }

  /** `%d` text reads back as the number it was written from. */
  lemma ParseFormatInt(p: int)
    ensures ParseInt(FormatInt(p)) == Some(p)
  {
    if p < 0 {
      assert FormatInt(p)[1..] == Decimal(-p);
    }
  }

  /** Whatever `ParseInt` accepts is the `%d` text of its value. */
  lemma FormatParseInt(s: seq<SChar>)
    requires ParseInt(s).Some?
    ensures FormatInt(ParseInt(s).value) == s
  {
    if |s| >= 1 && s[0] == Minus {
      DecimalOfDigitsValue(s[1..]);
      assert s == [Minus] + s[1..];
    } else {
      DecimalOfDigitsValue(s);
    }
  }

  function Pow10(k: nat): nat {
    if k == 0 then 1 else 10 * Pow10(k - 1)
  }

  lemma {:induction false} DecimalLength(n: nat, k: nat)
    requires 1 <= k && n < Pow10(k)
    ensures |Decimal(n)| <= k
    decreases k
  {
    if n >= 10 {
      DecimalLength(n / 10, k - 1);
    }
  }

  /** A 32-bit int takes at most eleven characters: a sign and ten digits. */
  lemma FormatInt32Length(p: Int32)
    ensures |FormatInt(p as int)| <= 11
  {
    assert Pow10(10) == 10_000_000_000 by {
      assert Pow10(5) == 100_000;
    }
    if p < 0 {
      DecimalLength(-(p as int), 10);
    } else {
      DecimalLength(p as int, 10);
    }
  }

  // ---------------------------------------------------------------------------
  // The command strings

  datatype Command =
    | StartStreaming          // "$TSC,BIN,30": binary output every 30 (start-up)
    | VersionQuery            // "$TSC,VER"
    | OffsetCancel(p: Int32)  // "$TSC,OFC,<p>"
    | HeadingReset            // "$TSC,HRST"

  const CrLf: seq<SChar> := [CR, LF]

  const StartText: seq<SChar> := [0x24, 0x54, 0x53, 0x43, 0x2C, 0x42, 0x49, 0x4E, 0x2C, 0x33, 0x30, CR, LF]
  const VersionText: seq<SChar> := [0x24, 0x54, 0x53, 0x43, 0x2C, 0x56, 0x45, 0x52, CR, LF]
  const OffsetCancelPrefix: seq<SChar> := [0x24, 0x54, 0x53, 0x43, 0x2C, 0x4F, 0x46, 0x43, 0x2C]
  const HeadingResetText: seq<SChar> := [0x24, 0x54, 0x53, 0x43, 0x2C, 0x48, 0x52, 0x53, 0x54, CR, LF]

  // The byte displays above spell the driver's string literals.
  lemma StartLiteral()
    ensures StartText == Ascii("$TSC,BIN,30\r\n")
  {
    var r := Ascii("$TSC,BIN,30\r\n");
    assert forall i :: 0 <= i < |r| ==> r[i] == StartText[i];
  }

  lemma VersionLiteral()
    ensures VersionText == Ascii("$TSC,VER\r\n")
  {
    var r := Ascii("$TSC,VER\r\n");
    assert forall i :: 0 <= i < |r| ==> r[i] == VersionText[i];
  }

  lemma OffsetCancelLiteral()
    ensures OffsetCancelPrefix == Ascii("$TSC,OFC,")
  {
    var r := Ascii("$TSC,OFC,");
    assert forall i :: 0 <= i < |r| ==> r[i] == OffsetCancelPrefix[i];
  }

  lemma HeadingResetLiteral()
    ensures HeadingResetText == Ascii("$TSC,HRST\r\n")
  {
    var r := Ascii("$TSC,HRST\r\n");
    assert forall i :: 0 <= i < |r| ==> r[i] == HeadingResetText[i];
  }


  /** The command line as text, ending in CR LF. */
  function CommandText(c: Command): (r: seq<SChar>)
    ensures |r| >= 2 && r[|r| - 2..] == CrLf
  {
    match c
    case StartStreaming => StartText
    case VersionQuery => VersionText
    case OffsetCancel(p) => OffsetCancelPrefix + FormatInt(p as int) + CrLf
    case HeadingReset => HeadingResetText
  }

  /** A reference reader of command lines, the partner of `CommandText`: it
      accepts exactly the lines `CommandText` produces. It is the model's own
      definition, not the device's parser, which is not part of this model. */
  function ParseCommand(line: seq<SChar>): Option<Command> {
    if line == StartText then Some(StartStreaming)
    else if line == VersionText then Some(VersionQuery)
    else if line == HeadingResetText then Some(HeadingReset)
    else if |line| >= |OffsetCancelPrefix| + 2 && line[..|OffsetCancelPrefix|] == OffsetCancelPrefix
      && line[|line| - 2..] == CrLf then
      match ParseInt(line[|OffsetCancelPrefix|..|line| - 2])
      case Some(v) => if -0x8000_0000 <= v < 0x8000_0000 then Some(OffsetCancel(v as Int32)) else None
      case None => None
    else None
  }

  /** Every command line reads back as the command it was built from. */
  lemma ParseCommandText(c: Command)
    ensures ParseCommand(CommandText(c)) == Some(c)
  {
    if c.OffsetCancel? {
      var line := CommandText(c);
      var digits := FormatInt(c.p as int);
      assert line[..|OffsetCancelPrefix|] == OffsetCancelPrefix;
      assert line[|OffsetCancelPrefix|..|line| - 2] == digits;
      assert line[5] != StartText[5] && line[5] != VersionText[5] && line[5] != HeadingResetText[5];
      ParseFormatInt(c.p as int);
    } else {
      assert StartText[5] != VersionText[5] && StartText[5] != HeadingResetText[5] && VersionText[5] != HeadingResetText[5];
    }
  }

  /** Only the exact command lines are read as commands. */
  lemma CommandTextOfParse(line: seq<SChar>)
    requires ParseCommand(line).Some?
    ensures CommandText(ParseCommand(line).value) == line
  {
    if line != StartText && line != VersionText && line != HeadingResetText {
      var n := |OffsetCancelPrefix|;
      var digits := line[n..|line| - 2];
      FormatParseInt(digits);
      assert line == line[..n] + digits + line[|line| - 2..];
    }
  }

  // ---------------------------------------------------------------------------
  // The writes

  /** Where a write goes: a raw file descriptor, or the `serial_port` object
      that `main` opens on the configured port. */
  datatype Channel = Descriptor(fd: int) | Port

  /** The global `fd`: it has static storage, so it starts at zero, and
      nothing assigns it. `serial_setup`, which would open the device, is
      never called, and it stores into a local of the same name. */
  const GlobalFd: int := 0

  /** A call `write(fd, buffer, count)`, or `write_some` of a whole buffer. */
  datatype Write = Write(channel: Channel, buffer: seq<SChar>, count: nat)

  /** The bytes the call asks to have written. A short write may pass on
      only a prefix of them. */
  function Requested(w: Write): seq<SChar>
    requires w.count <= |w.buffer|
  {
    w.buffer[..w.count]
  }

  /** The start-up command: a `std::string` of 13 characters passed whole to
      the serial port, with no terminating NUL. */
  function StartCommand(): (w: Write)
    ensures w.channel == Port
    ensures w.count == |w.buffer| == 13
    ensures Requested(w) == CommandText(StartStreaming) && NUL !in Requested(w)
  {
    Write(Port, StartText, |StartText|)
  }

  /** The target of the callbacks' writes as written: descriptor `fd`,
      which is 0, not the serial port the start command goes to. */
  function CallbackChannelAsWritten(): (ch: Channel)
    ensures ch == Descriptor(0) && ch != StartCommand().channel
  {
    Descriptor(GlobalFd)
  }

  /** The target the callbacks evidently mean: the port the start command
      goes to. */
  function CallbackChannel(): (ch: Channel)
    ensures ch == StartCommand().channel
  {
    Port
  }

  /** `receive_ver_req`: the `char` array holds the literal and its NUL, and
      `sizeof` (11) bytes are passed to `write` on `out`. */
  function ReceiveVerReq(out: Channel): (w: Write)
    ensures w.channel == out
    ensures w.count == |w.buffer| == 11
    ensures Requested(w) == CommandText(VersionQuery) + [NUL]
  {
    Write(out, VersionText + [NUL], 11)
  }

  /** `receive_heading_reset_req`: likewise, 12 bytes with the NUL. */
  function ReceiveHeadingResetReq(out: Channel): (w: Write)
    ensures w.channel == out
    ensures w.count == |w.buffer| == 12
    ensures Requested(w) == CommandText(HeadingReset) + [NUL]
  {
    Write(out, HeadingResetText + [NUL], 12)
  }

  /** `receive_offset_cancel_req`: `sprintf` fills the front of a 32-byte
      stack buffer with the line and its NUL; the rest keeps whatever `stale`
      held; all 32 bytes are passed to `write` on `out`. */
  function ReceiveOffsetCancelReq(out: Channel, p: Int32, stale: seq<SChar>): (w: Write)
    requires |stale| == 32
    ensures w.channel == out
    ensures w.count == |w.buffer| == 32
    ensures |CommandText(OffsetCancel(p))| + 1 <= 23
    ensures Requested(w)[..|CommandText(OffsetCancel(p))| + 1] == CommandText(OffsetCancel(p)) + [NUL]
    ensures Requested(w)[|CommandText(OffsetCancel(p))| + 1..] == stale[|CommandText(OffsetCancel(p))| + 1..]
  {
    var text := OffsetCancelPrefix + FormatInt(p as int) + CrLf;
    FormatInt32Length(p);
    Write(out, text + [NUL] + stale[|text| + 1..], 32)
  }

  /** As written, none of the three requests goes where the start command
      went: each is written to descriptor 0. */
  lemma CallbacksMissThePort(p: Int32, stale: seq<SChar>)
    requires |stale| == 32
    ensures ReceiveVerReq(CallbackChannelAsWritten()).channel == Descriptor(0) != StartCommand().channel
    ensures ReceiveHeadingResetReq(CallbackChannelAsWritten()).channel == Descriptor(0) != StartCommand().channel
    ensures ReceiveOffsetCancelReq(CallbackChannelAsWritten(), p, stale).channel == Descriptor(0) != StartCommand().channel
  {
  }

  /** On the intended target every request goes to the port, with the same
      bytes as written. */
  lemma CallbacksReachThePort(p: Int32, stale: seq<SChar>)
    requires |stale| == 32
    ensures ReceiveVerReq(CallbackChannel()).channel == StartCommand().channel
    ensures ReceiveHeadingResetReq(CallbackChannel()).channel == StartCommand().channel
    ensures ReceiveOffsetCancelReq(CallbackChannel(), p, stale).channel == StartCommand().channel
    ensures Requested(ReceiveVerReq(CallbackChannel())) == Requested(ReceiveVerReq(CallbackChannelAsWritten()))
    ensures Requested(ReceiveHeadingResetReq(CallbackChannel())) == Requested(ReceiveHeadingResetReq(CallbackChannelAsWritten()))
    ensures Requested(ReceiveOffsetCancelReq(CallbackChannel(), p, stale))
      == Requested(ReceiveOffsetCancelReq(CallbackChannelAsWritten(), p, stale))
  {
  }
}
