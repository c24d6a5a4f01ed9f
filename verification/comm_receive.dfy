// The receiver of the CommHandler as a machine that reads one byte at a time, and the
// frames it accepts.
module CommReceive {
  import opened Words
  import opened Checksum

  datatype RxError = NoRxError | RxOverflow | RxDisabled | InvalidCommand

  /** State of the reception FSM together with the per-state counter. */
  datatype RxState =
    | WaitForCommand
    | WaitForSubfunction
    | WaitForLength(lengthBytes: nat)
    | WaitForData(dataBytes: nat)
    | WaitForCrc(crcBytes: nat)
    | WaitForProcess
    | RxFailed

  datatype Rx = Rx(
    state: RxState, command: byte, subfunction: byte, length: nat, sentCrc: Crc,
    crc: Crc, payload: seq<byte>, requestReceived: bool, error: RxError)

  datatype RxConfig = RxConfig(bufferSize: nat, sessionActive: bool)

  const FRESH := Rx(WaitForCommand, 0, 0, 0, ZERO, ZERO, [], false, NoRxError)
  const DISCOVER_MAGIC: seq<byte> := [0x7E, 0x18, 0xFC, 0x68]
  const COMM_CONTROL: byte := 2
  const DISCOVER: byte := 1
  const CONNECT: byte := 4

  predicate Stopped(rx: Rx) { rx.requestReceived || rx.state.RxFailed? }

  /** Without a session only Discover, with its magic, and Connect get through. */
  predicate MustProcess(cfg: RxConfig, command: byte, subfunction: byte, payload: seq<byte>) {
    || cfg.sessionActive
    || (command == COMM_CONTROL && subfunction == DISCOVER && DISCOVER_MAGIC <= payload)
    || (command == COMM_CONTROL && subfunction == CONNECT)
  }

  function AfterLength(rx: Rx): Rx {
    rx.(state := if rx.length == 0 then WaitForCrc(0) else WaitForData(0))
  }

  function AfterCrc(cfg: RxConfig, rx: Rx): Rx {
    if rx.crc == rx.sentCrc && MustProcess(cfg, rx.command, rx.subfunction, rx.payload)
    then rx.(state := WaitForProcess, requestReceived := true)
    else FRESH
  }

  /** What one received byte does. */
  function Step(cfg: RxConfig, rx: Rx, b: byte): Rx {
    if Stopped(rx) then rx
    else
      match rx.state
      case WaitForCommand =>
        if b >= 0x80 then rx.(crc := ZERO, state := RxFailed, error := InvalidCommand)
        else rx.(command := b, crc := Crc32([b], ZERO), state := WaitForSubfunction)
      case WaitForSubfunction =>
        rx.(subfunction := b, crc := Crc32([b], rx.crc), state := WaitForLength(0))
      case WaitForLength(n) =>
        if n == 0 then rx.(length := 256 * (b as nat), crc := Crc32([b], rx.crc), state := WaitForLength(1))
        else AfterLength(rx.(length := rx.length + b, crc := Crc32([b], rx.crc)))
      case WaitForData(n) =>
        if rx.length > cfg.bufferSize then rx.(state := RxFailed, error := RxOverflow)
        else
          rx.(payload := rx.payload + [b], crc := Crc32([b], rx.crc),
              state := if n + 1 >= rx.length then WaitForCrc(0) else WaitForData(n + 1))
      case WaitForCrc(n) =>
        var got := rx.(sentCrc := Glue(rx.sentCrc, b), state := WaitForCrc(n + 1));
        if n + 1 >= 4 then AfterCrc(cfg, got) else got
      case _ => rx
  }

  /** What a byte stream does. */
  function Feed(cfg: RxConfig, rx: Rx, data: seq<byte>): Rx
    decreases |data|
  {
    if data == [] then rx else Feed(cfg, Step(cfg, rx, data[0]), data[1..])
  }

  // ----- Chunks -----

  lemma {:induction false} FeedConcat(cfg: RxConfig, rx: Rx, a: seq<byte>, b: seq<byte>)
    ensures Feed(cfg, rx, a + b) == Feed(cfg, Feed(cfg, rx, a), b)
    decreases |a|
  {
    hide Step;
    if a == [] {
      assert a + b == b;
    } else {
      FeedConcat(cfg, Step(cfg, rx, a[0]), a[1..], b);
      assert (a + b)[1..] == a[1..] + b;
    }
  }

  /** What a stream does when it arrives in chunks. */
  function FeedChunks(cfg: RxConfig, rx: Rx, chunks: seq<seq<byte>>): Rx
    decreases |chunks|
  {
    if chunks == [] then rx else FeedChunks(cfg, Feed(cfg, rx, chunks[0]), chunks[1..])
  }

  function Joined(chunks: seq<seq<byte>>): seq<byte> {
    if chunks == [] then [] else chunks[0] + Joined(chunks[1..])
  }

  /** However a stream is cut into chunks, the receiver ends up the same. */
  lemma {:induction false} ChunksDoNotMatter(cfg: RxConfig, rx: Rx, chunks: seq<seq<byte>>)
    ensures FeedChunks(cfg, rx, chunks) == Feed(cfg, rx, Joined(chunks))
    decreases |chunks|
  {
    hide Step;
    if chunks != [] {
      ChunksDoNotMatter(cfg, Feed(cfg, rx, chunks[0]), chunks[1..]);
      FeedConcat(cfg, rx, chunks[0], Joined(chunks[1..]));
    }
  }

  lemma {:induction false} StoppedStays(cfg: RxConfig, rx: Rx, data: seq<byte>)
    requires Stopped(rx)
    ensures Feed(cfg, rx, data) == rx
    decreases |data|
  {
    if data != [] {
      StoppedStays(cfg, rx, data[1..]);
    }
  }

  /** The bulk path: `chunk` fits in what the payload still misses. */
  function TakeData(rx: Rx, chunk: seq<byte>): Rx
    requires rx.state.WaitForData?
  {
    var n := rx.state.dataBytes + |chunk|;
    rx.(payload := rx.payload + chunk, crc := Crc32(chunk, rx.crc),
        state := if n >= rx.length then WaitForCrc(0) else WaitForData(n))
  }

  lemma {:induction false} FeedData(cfg: RxConfig, rx: Rx, chunk: seq<byte>)
    requires rx.state.WaitForData? && !rx.requestReceived && rx.length <= cfg.bufferSize
    requires 0 < |chunk| <= rx.length - rx.state.dataBytes
    ensures Feed(cfg, rx, chunk) == TakeData(rx, chunk)
    decreases |chunk|
  {
    hide Crc32;
    var next := Step(cfg, rx, chunk[0]);
    assert chunk == [chunk[0]] + chunk[1..];
    if |chunk| == 1 {
      assert chunk[1..] == [] && chunk == [chunk[0]];
    } else {
      FeedData(cfg, next, chunk[1..]);
      Crc32Concat([chunk[0]], chunk[1..], rx.crc);
      assert rx.payload + [chunk[0]] + chunk[1..] == rx.payload + chunk;
    }
  }

  /** The two-byte length path. */
  lemma FeedTwoLengthBytes(cfg: RxConfig, rx: Rx, two: seq<byte>)
    requires |two| == 2 && rx.state == WaitForLength(0) && !rx.requestReceived
    ensures Feed(cfg, rx, two) == AfterLength(rx.(length := 256 * (two[0] as nat) + two[1], crc := Crc32(two, rx.crc)))
    ensures !CompletesFrame(cfg, rx, two)
  {
    hide Crc32;
    var a, b := two[0], two[1];
    assert two == [a] + [b];
    OneByte(cfg, rx, a);
    OneByte(cfg, Step(cfg, rx, a), b);
    FeedConcat(cfg, rx, [a], [b]);
    CompletesConcat(cfg, rx, [a], [b]);
    Crc32Concat([a], [b], rx.crc);
  }

  /** True if some CRC field is completed while `data` is read. */
  predicate CompletesFrame(cfg: RxConfig, rx: Rx, data: seq<byte>)
    decreases |data|
  {
    data != []
    && ((rx.state == WaitForCrc(3) && !rx.requestReceived) || CompletesFrame(cfg, Step(cfg, rx, data[0]), data[1..]))
  }

  lemma {:induction false} CompletesConcat(cfg: RxConfig, rx: Rx, a: seq<byte>, b: seq<byte>)
    ensures CompletesFrame(cfg, rx, a + b) <==> CompletesFrame(cfg, rx, a) || CompletesFrame(cfg, Feed(cfg, rx, a), b)
    decreases |a|
  {
    hide Step;
    if a == [] {
      assert a + b == b;
    } else {
      CompletesConcat(cfg, Step(cfg, rx, a[0]), a[1..], b);
      assert (a + b)[1..] == a[1..] + b;
    }
  }

  lemma {:induction false} StoppedCompletesNothing(cfg: RxConfig, rx: Rx, data: seq<byte>)
    requires Stopped(rx)
    ensures !CompletesFrame(cfg, rx, data)
    decreases |data|
  {
    if data != [] {
      StoppedCompletesNothing(cfg, rx, data[1..]);
    }
  }

  lemma OneByte(cfg: RxConfig, rx: Rx, b: byte)
    ensures Feed(cfg, rx, [b]) == Step(cfg, rx, b)
    ensures CompletesFrame(cfg, rx, [b]) <==> rx.state == WaitForCrc(3) && !rx.requestReceived
  {}

  lemma {:induction false} DataCompletesNothing(cfg: RxConfig, rx: Rx, chunk: seq<byte>)
    requires rx.state.WaitForData? && !rx.requestReceived && rx.length <= cfg.bufferSize
    requires |chunk| <= rx.length - rx.state.dataBytes
    ensures !CompletesFrame(cfg, rx, chunk)
    decreases |chunk|
  {
    hide Crc32;
    if chunk != [] {
      if |chunk| == 1 {
        OneByte(cfg, rx, chunk[0]);
        assert chunk == [chunk[0]];
      } else {
        DataCompletesNothing(cfg, Step(cfg, rx, chunk[0]), chunk[1..]);
      }
    }
  }

  lemma FirstByte(cfg: RxConfig, rx: Rx, data: seq<byte>, i: nat)
    requires i < |data| && !rx.requestReceived
    ensures Feed(cfg, rx, data[i..]) == Feed(cfg, Step(cfg, rx, data[i]), data[i + 1..])
    ensures CompletesFrame(cfg, rx, data[i..]) <==>
            rx.state == WaitForCrc(3) || CompletesFrame(cfg, Step(cfg, rx, data[i]), data[i + 1..])
  {
    hide Step;
    assert data[i..][1..] == data[i + 1..];
  }

  lemma FailedStays(cfg: RxConfig, rx: Rx, data: seq<byte>, i: nat)
    requires i < |data| && Stopped(rx)
    ensures Feed(cfg, rx, data[i..]) == Feed(cfg, rx, data[i + 1..])
    ensures !CompletesFrame(cfg, rx, data[i..]) && !CompletesFrame(cfg, rx, data[i + 1..])
  {
    StoppedStays(cfg, rx, data[i..]);
    StoppedStays(cfg, rx, data[i + 1..]);
    StoppedCompletesNothing(cfg, rx, data[i..]);
    StoppedCompletesNothing(cfg, rx, data[i + 1..]);
  }

  lemma RestIgnored(cfg: RxConfig, rx: Rx, rest: seq<byte>)
    requires Stopped(rx) || rest == []
    ensures Feed(cfg, rx, rest) == rx && !CompletesFrame(cfg, rx, rest)
  {
    if rest != [] {
      StoppedStays(cfg, rx, rest);
      StoppedCompletesNothing(cfg, rx, rest);
    }
  }

  // ----- Frames -----

  function LengthOf(f: seq<byte>): nat
    requires |f| >= 4
  {
    256 * (f[2] as nat) + f[3] as nat
  }

  predicate CrcMatches(f: seq<byte>, n: nat)
    requires n <= |f|
  {
    Crc32(f[..n], ZERO) == GlueAll(ZERO, f[n..])
  }

  /** A Connect, or a Discover with its magic: all that a handler without a session stores. */
  predicate ForNewcomers(command: byte, subfunction: byte, payload: seq<byte>) {
    command == 2 && (subfunction == 4 || (subfunction == 1 && [0x7E, 0x18, 0xFC, 0x68] <= payload))
  }

  /** In a session every request is stored. */
  predicate Admitted(cfg: RxConfig, command: byte, subfunction: byte, payload: seq<byte>) {
    cfg.sessionActive || ForNewcomers(command, subfunction, payload)
  }

  /** A complete request whose CRC matches and that is admitted. */
  predicate FrameOk(cfg: RxConfig, f: seq<byte>)
    requires |f| >= 8 && |f| == 8 + LengthOf(f)
  {
    var n := 4 + LengthOf(f);
    CrcMatches(f, n) && Admitted(cfg, f[0], f[1], f[4..n])
  }

  datatype Parsed = NeedMore | Refused(error: RxError) | Accepted(command: byte, subfunction: byte, payload: seq<byte>)

  /** Reads a whole stream at once: frames that fail are dropped, the first good one is kept. */
  function Parse(cfg: RxConfig, stream: seq<byte>): Parsed
    decreases |stream|
  {
    if stream == [] then NeedMore
    else if stream[0] >= 0x80 then Refused(InvalidCommand)
    else if |stream| < 4 then NeedMore
    else
      var n := LengthOf(stream);
      if n > cfg.bufferSize then (if |stream| == 4 then NeedMore else Refused(RxOverflow))
      else if |stream| < 8 + n then NeedMore
      else if FrameOk(cfg, stream[..8 + n]) then Accepted(stream[0], stream[1], stream[4..4 + n])
      else Parse(cfg, stream[8 + n..])
  }

  lemma {:induction false} FeedThree(cfg: RxConfig, h: seq<byte>)
    requires 1 <= |h| <= 3 && h[0] < 0x80
    ensures
      var r := Feed(cfg, FRESH, h);
      && !Stopped(r) && r.command == h[0] && r.crc == Crc32(h, ZERO) && r.sentCrc == ZERO && r.payload == [] && r.error == NoRxError
      && r.state == [WaitForSubfunction, WaitForLength(0), WaitForLength(1)][|h| - 1]
      && (|h| > 1 ==> r.subfunction == h[1]) && (|h| > 2 ==> r.length == 256 * (h[2] as nat))
    decreases |h|
  {
    hide Crc32;
    var last := |h| - 1;
    assert h == h[..last] + [h[last]];
    FeedConcat(cfg, FRESH, h[..last], [h[last]]);
    if last > 0 {
      FeedThree(cfg, h[..last]);
      Crc32Concat(h[..last], [h[last]], ZERO);
    } else {
      assert h[..last] == [];
    }
  }

  /** The receiver after the four header bytes. */
  lemma FeedHeader(cfg: RxConfig, h: seq<byte>)
    requires |h| == 4 && h[0] < 0x80
    ensures Feed(cfg, FRESH, h) ==
      AfterLength(Rx(WaitForCommand, h[0], h[1], LengthOf(h), ZERO, Crc32(h, ZERO), [], false, NoRxError))
  {
    hide Crc32;
    FeedThree(cfg, h[..3]);
    assert h == h[..3] + [h[3]];
    FeedConcat(cfg, FRESH, h[..3], [h[3]]);
    Crc32Concat(h[..3], [h[3]], ZERO);
  }

  /** The receiver after header and payload. */
  lemma FeedBody(cfg: RxConfig, f: seq<byte>)
    requires |f| >= 4 && f[0] < 0x80 && LengthOf(f) <= cfg.bufferSize && |f| == 4 + LengthOf(f)
    ensures Feed(cfg, FRESH, f) ==
      Rx(WaitForCrc(0), f[0], f[1], LengthOf(f), ZERO, Crc32(f, ZERO), f[4..], false, NoRxError)
  {
    hide Crc32;
    FeedHeader(cfg, f[..4]);
    assert f == f[..4] + f[4..];
    if LengthOf(f) > 0 {
      FeedConcat(cfg, FRESH, f[..4], f[4..]);
      FeedData(cfg, Feed(cfg, FRESH, f[..4]), f[4..]);
      Crc32Concat(f[..4], f[4..], ZERO);
    } else {
      assert f[..4] == f;
    }
  }

  lemma {:induction false} FeedCrc(cfg: RxConfig, rx: Rx, c: seq<byte>)
    requires rx.state.WaitForCrc? && !rx.requestReceived && rx.state.crcBytes + |c| <= 4 && rx.state.crcBytes < 4
    ensures
      var got := rx.(sentCrc := GlueAll(rx.sentCrc, c), state := WaitForCrc(rx.state.crcBytes + |c|));
      Feed(cfg, rx, c) == if rx.state.crcBytes + |c| == 4 then AfterCrc(cfg, got) else got
    decreases |c|
  {
    hide Glue;
    if |c| > 0 && rx.state.crcBytes < 3 {
      FeedCrc(cfg, Step(cfg, rx, c[0]), c[1..]);
    } else if |c| > 0 {
      assert c[1..] == [];
    }
  }

  /** A whole frame is kept or leaves a fresh receiver. */
  lemma FeedFrame(cfg: RxConfig, f: seq<byte>)
    requires |f| >= 8 && f[0] < 0x80 && LengthOf(f) <= cfg.bufferSize && |f| == 8 + LengthOf(f)
    ensures
      var r := Feed(cfg, FRESH, f);
      if FrameOk(cfg, f) then
        r.requestReceived && r.state == WaitForProcess && r.command == f[0] && r.subfunction == f[1]
        && r.length == LengthOf(f) && r.payload == f[4..4 + LengthOf(f)]
      else r == FRESH
  {
    hide Crc32;
    var n := 4 + LengthOf(f);
    FeedBody(cfg, f[..n]);
    assert f == f[..n] + f[n..] && f[..n][4..] == f[4..n];
    FeedConcat(cfg, FRESH, f[..n], f[n..]);
    FeedCrc(cfg, Feed(cfg, FRESH, f[..n]), f[n..]);
  }

  /** What a client sends: header, payload and the CRC of the two. */
  function RequestFrame(command: byte, subfunction: byte, payload: seq<byte>): (f: seq<byte>)
    requires |payload| < 0x1_0000
    ensures |f| == 8 + |payload|
  {
    var covered := [command, subfunction] + EncodeBe(|payload|, 2) + payload;
    covered + CrcBytes(Crc32(covered, ZERO))
  }

  /** Of all byte strings with the length their header names, exactly the client's frames have
      a matching CRC. */
  lemma MatchingIsRequestFrame(f: seq<byte>)
    requires |f| >= 8 && |f| == 8 + LengthOf(f)
    ensures CrcMatches(f, |f| - 4) <==> f == RequestFrame(f[0], f[1], f[4..|f| - 4])
  {
    hide Crc32, CrcBytes, GlueAll;
    var n := |f| - 4;
    TwoBytes(LengthOf(f));
    assert f[..n] == [f[0], f[1]] + EncodeBe(LengthOf(f), 2) + f[4..n];
    assert f == f[..n] + f[n..];
    CrcBytesUnique(f[n..], Crc32(f[..n], ZERO));
    var made := RequestFrame(f[0], f[1], f[4..n]);
    assert made[n..] == CrcBytes(Crc32(f[..n], ZERO));
  }

  /** A client's request reaches the handler: from a fresh receiver it is stored as sent if it
      is admitted, and dropped otherwise. */
  lemma RequestArrives(cfg: RxConfig, command: byte, subfunction: byte, payload: seq<byte>)
    requires command < 0x80 && |payload| < 0x1_0000 && |payload| <= cfg.bufferSize
    ensures
      var r := Feed(cfg, FRESH, RequestFrame(command, subfunction, payload));
      if Admitted(cfg, command, subfunction, payload) then
        && r.requestReceived && r.command == command && r.subfunction == subfunction
        && r.length == |payload| && r.payload == payload
      else r == FRESH
  {
    hide Crc32, CrcBytes, GlueAll, Feed, Admitted;
    var f := RequestFrame(command, subfunction, payload);
    TwoBytes(|payload|);
    assert f[4..4 + |payload|] == payload;
    assert LengthOf(f) == |payload|;
    MatchingIsRequestFrame(f);
    FeedFrame(cfg, f);
  }

  /** A proper prefix of an acceptable frame leaves the receiver waiting. */
  lemma FeedPrefix(cfg: RxConfig, f: seq<byte>)
    requires |f| > 0 ==> f[0] < 0x80
    requires |f| >= 4 ==> |f| < 8 + LengthOf(f)
    requires |f| >= 4 && LengthOf(f) > cfg.bufferSize ==> |f| == 4
    ensures !Stopped(Feed(cfg, FRESH, f))
  {
    hide Crc32;
    if 0 < |f| < 4 {
      FeedThree(cfg, f);
    } else if |f| >= 4 {
      FeedHeader(cfg, f[..4]);
      var h := Feed(cfg, FRESH, f[..4]);
      assert f == f[..4] + f[4..];
      FeedConcat(cfg, FRESH, f[..4], f[4..]);
      var n := 4 + LengthOf(f);
      if 4 < |f| < n {
        FeedData(cfg, h, f[4..]);
      } else if |f| >= n {
        FeedBody(cfg, f[..n]);
        assert f == f[..n] + f[n..];
        FeedConcat(cfg, FRESH, f[..n], f[n..]);
        FeedCrc(cfg, Feed(cfg, FRESH, f[..n]), f[n..]);
      }
    }
  }

  /** From a fresh receiver, a stream raises the request flag exactly when parsing it finds
      an acceptable frame, and the stored request is that frame; it fails exactly when
      parsing refuses it, with the same error. */
  lemma {:induction false} FeedIsParse(cfg: RxConfig, stream: seq<byte>)
    ensures
      var r, p := Feed(cfg, FRESH, stream), Parse(cfg, stream);
      && (r.requestReceived <==> p.Accepted?)
      && (p.Accepted? ==> r.command == p.command && r.subfunction == p.subfunction
                          && r.payload == p.payload && r.length == |p.payload|)
      && (r.state.RxFailed? <==> p.Refused?)
      && (p.Refused? ==> r.error == p.error)
    decreases |stream|
  {
    hide Crc32;
    if stream == [] || (stream[0] < 0x80 && |stream| < 4) {
      FeedPrefix(cfg, stream);
    } else if stream[0] >= 0x80 {
      StoppedStays(cfg, Step(cfg, FRESH, stream[0]), stream[1..]);
    } else {
      var n := LengthOf(stream);
      if n > cfg.bufferSize && |stream| > 4 {
        FeedHeader(cfg, stream[..4]);
        assert stream == stream[..4] + stream[4..];
        FeedConcat(cfg, FRESH, stream[..4], stream[4..]);
        var h := Feed(cfg, FRESH, stream[..4]);
        StoppedStays(cfg, Step(cfg, h, stream[4]), stream[4..][1..]);
      } else if n > cfg.bufferSize || |stream| < 8 + n {
        FeedPrefix(cfg, stream);
      } else {
        var f, rest := stream[..8 + n], stream[8 + n..];
        assert stream == f + rest;
        FeedFrame(cfg, f);
        FeedConcat(cfg, FRESH, f, rest);
        assert f[4..4 + n] == stream[4..4 + n];
        if FrameOk(cfg, f) {
          StoppedStays(cfg, Feed(cfg, FRESH, f), rest);
        } else {
          FeedIsParse(cfg, rest);
        }
      }
    }
  }

  /** Whatever a handler without a session receives, it stores nothing else. */
  lemma OnlyForNewcomers(cfg: RxConfig, stream: seq<byte>)
    requires !cfg.sessionActive
    ensures
      var r := Feed(cfg, FRESH, stream);
      r.requestReceived ==>
        r.command == 2 && (r.subfunction == 4 || (r.subfunction == 1 && [0x7E, 0x18, 0xFC, 0x68] <= r.payload))
  {
    hide Feed, Parse;
    FeedIsParse(cfg, stream);
    ParsesForNewcomers(cfg, stream);
  }

  lemma {:induction false} ParsesForNewcomers(cfg: RxConfig, stream: seq<byte>)
    requires !cfg.sessionActive
    ensures
      var p := Parse(cfg, stream);
      p.Accepted? ==> ForNewcomers(p.command, p.subfunction, p.payload)
    decreases |stream|
  {
    hide ForNewcomers, CrcMatches;
    if |stream| >= 4 && |stream| >= 8 + LengthOf(stream) {
      var n := LengthOf(stream);
      assert stream[..8 + n][4..4 + n] == stream[4..4 + n];
      ParsesForNewcomers(cfg, stream[8 + n..]);
    }
  }

  /** A frame with a good CRC whose payload is then corrupted within four consecutive bytes
      is dropped. */
  lemma CorruptedPayloadDropped(cfg: RxConfig, f: seq<byte>, g: seq<byte>, lo: nat, hi: nat)
    requires |f| >= 8 && f[0] < 0x80 && LengthOf(f) <= cfg.bufferSize && |f| == 8 + LengthOf(f)
    requires CrcMatches(f, |f| - 4)
    requires 4 <= lo <= hi <= |f| - 4 && hi - lo <= 4
    requires SameOutside(f, g, lo, hi) && f != g
    ensures Feed(cfg, FRESH, g) == FRESH
  {
    hide Crc32, GlueAll;
    var n := |f| - 4;
    assert forall i | 0 <= i < 4 :: f[i] == f[..lo][i] == g[..lo][i] == g[i];
    assert f[n..] == f[hi..][n - hi..] == g[n..];
    assert f[..n][..lo] == f[..lo] && g[..n][..lo] == g[..lo];
    assert f[..n][hi..] == f[hi..][..n - hi] && g[..n][hi..] == g[hi..][..n - hi];
    assert f == f[..n] + f[n..] && g == g[..n] + g[n..];
    BurstDetected(f[..n], g[..n], lo, hi, ZERO);
    FeedFrame(cfg, g);
  }
}
