/** The pad protocol of virtualpad/pad_server.py: the login handshake with its
    one-byte answer, the normalisation of (key, state) pairs, and the frame
    loop a logged-in pad runs. The pad registry is the pool of
    virtualpad/pads.py; the per-pad passwords are given. Forwarding events to
    the pool's device goes through a function that is not part of this model,
    so each forwarded batch is recorded instead. */
module PadServer {
  import opened Base
  import Pool
  import Handshake
  import Devices

  // The one-byte answers of the handshake and the session.
  const LoginSuccess: byte := 0
  const LoginFailure: byte := 1
  const PadInvalid: byte := 2
  const PadBusy: byte := 3
  const Terminated: byte := 4
  const CommandLengthMismatch: byte := 5

  /** Buttons and axes a frame may carry; the first byte of a frame is an
      event count below this, or one of the two commands after it. */
  const NButtons := 18
  const CloseConnection := NButtons + 0
  const Ping := NButtons + 1
  /** The most bytes one session read returns. */
  const ReadSize := 40

  /** The code the server answers a handshake decision with. */
  function ReplyCode(d: Handshake.Decision): (c: byte)
    ensures d == Handshake.Accepted <==> c == LoginSuccess
  {
    match d
    case InvalidPad => PadInvalid
    case BusyPad => PadBusy
    case WrongPassword => LoginFailure
    case Accepted => LoginSuccess
  }

  /** Different decisions are answered with different codes. */
  lemma ReplyCodesDistinct(d1: Handshake.Decision, d2: Handshake.Decision)
    requires d1 != d2
    ensures ReplyCode(d1) != ReplyCode(d2)
  {
  }

  /** The outcome of a handshake that did not raise: the one code written
      back, and (True, index, nickname) or (False, None, None). */
  datatype AuthOutcome = AuthOutcome(reply: byte, success: bool, index: Option<byte>, nickname: Option<string>)

  /** The handshake: at most 21 bytes were read; fewer raises, and so does
      either text field failing to decode (both are decoded before any
      check). Otherwise exactly one code is answered, and success carries the
      index and the decoded nickname. */
  function PadAuth(read: seq<byte>, pool: seq<Option<Pool.Entry>>, passwords: seq<string>): (r: Result<AuthOutcome, Handshake.Fault>)
    requires |read| <= Handshake.HandshakeLength
    requires |pool| == Handshake.MaxPadCount && |passwords| == Handshake.MaxPadCount
    ensures r == Err(Handshake.HandshakeIncomplete) <==> |read| < Handshake.HandshakeLength
    ensures |read| == Handshake.HandshakeLength ==>
              (r.Err? <==> !ValidUtf8(read[1..5]) || !ValidUtf8(read[5..21]))
    ensures r.Err? ==> r.error != Handshake.IndexError
    ensures r.Ok? ==> (r.value.success <==> r.value.reply == LoginSuccess)
    ensures r.Ok? ==>
              && ValidUtf8(read[1..5]) && ValidUtf8(read[5..21])
              && r.value.reply == ReplyCode(Handshake.Decide(read[0], pool, passwords, DecodeUtf8(read[1..5])))
    ensures r.Ok? && r.value.success ==>
              && read[0] < Handshake.MaxPadCount && pool[read[0]].None?
              && DecodeUtf8(read[1..5]) == passwords[read[0]]
              && r.value.index == Some(read[0])
              && r.value.nickname == Some(DecodeUtf8(read[5..21]))
    ensures r.Ok? && !r.value.success ==> r.value.index == None && r.value.nickname == None
  {
    if |read| < Handshake.HandshakeLength then Err(Handshake.HandshakeIncomplete)
    else
      var hello := Handshake.Split(read);
      match Handshake.DecodeHello(hello)
      case Err(e) => Err(e)
      case Ok((attempted, nickname)) =>
        var decision := Handshake.Decide(hello.index, pool, passwords, attempted);
        if decision == Handshake.Accepted then
          Ok(AuthOutcome(LoginSuccess, true, Some(hello.index), Some(nickname)))
        else
          Ok(AuthOutcome(ReplyCode(decision), false, None, None))
  }

  /** A client that sends a free pad's index, that pad's ASCII password and
      a 16-byte ASCII nickname logs in and keeps its nickname. */
  lemma LoginWithPassword(index: byte, password: string, nick: string,
                          pool: seq<Option<Pool.Entry>>, passwords: seq<string>)
    requires |pool| == Handshake.MaxPadCount && |passwords| == Handshake.MaxPadCount
    requires index < Handshake.MaxPadCount && pool[index].None? && passwords[index] == password
    requires |password| == Handshake.PasswordLength && |nick| == Handshake.NicknameLength
    requires forall i :: 0 <= i < |password| ==> password[i] as int < 0x80
    requires forall i :: 0 <= i < |nick| ==> nick[i] as int < 0x80
    ensures var read := Handshake.Join(Handshake.Hello(index, AsciiBytes(password), AsciiBytes(nick)));
            PadAuth(read, pool, passwords) == Ok(AuthOutcome(LoginSuccess, true, Some(index), Some(nick)))
  {
    var hello := Handshake.Hello(index, AsciiBytes(password), AsciiBytes(nick));
    Handshake.SplitJoin(hello);
    AsciiRoundTrip(password);
    AsciiRoundTrip(nick);
  }

  /** One (key, state) pair as forwarded: the fourteen buttons get state 0
      or 1 (Python's `state and 1`), every other key keeps its state. */
  function Normalize(key: byte, state: byte): (e: Devices.Event)
    ensures e.0 == key
    ensures key < Devices.NButtons ==> (e.1 == 0 <==> state == 0) && (e.1 == 0 || e.1 == 1)
    ensures key >= Devices.NButtons ==> e.1 == state
  {
    if key < Devices.NButtons then (key, if state == 0 then 0 else 1) else (key, state)
  }

  /** The pairs of an even-length payload, normalised, in payload order. */
  function Normalized(buffer: seq<byte>): (r: seq<Devices.Event>)
    requires |buffer| % 2 == 0
    ensures |r| == |buffer| / 2
    ensures forall j :: 0 <= j < |r| ==> r[j] == Normalize(buffer[2 * j], buffer[2 * j + 1])
  {
    seq(|buffer| / 2, j requires 0 <= j < |buffer| / 2 => Normalize(buffer[2 * j], buffer[2 * j + 1]))
  }

  /** Every button state in a batch is 0 or 1. */
  predicate ButtonsBinary(events: seq<Devices.Event>)
  {
    forall j :: 0 <= j < |events| && 0 <= events[j].0 < Devices.NButtons ==> events[j].1 == 0 || events[j].1 == 1
  }

  /** What one session read holds: up to 40 bytes (none at end of stream),
      or the receive timeout. */
  datatype Read = Data(bytes: seq<byte>) | TimedOut

  /** How a session ends. `LengthMismatch` is the exception raised when the
      handler tries to answer a short event frame on its read-only stream.
      `ReadAfterTimeout` is the exception raised by the read that follows a
      receive timeout: the loop skips the timeout, but the socket's file
      refuses every read once one has timed out. `InputExhausted` only ends
      a run over a finite prefix of the reads. */
  datatype End = NoDevice | PeerClosed | CloseRequested | LengthMismatch | ReadAfterTimeout | InputExhausted

  /** How the peer stops sending: it closes the connection, or it falls
      silent until the receive timeout. */
  datatype Ending = Closed | Silent

  /** The reads the buffered socket file returns for the bytes a peer sends:
      a read of 40 returns 40 bytes while that many remain, fewer only at
      the end of the stream (then an empty read), and a timeout when the
      peer falls silent with fewer than 40 bytes unread (those are never
      returned). The last read is the one that ends the stream. */
  function Reads(stream: seq<byte>, ending: Ending): (r: seq<Read>)
    ensures r != []
    ensures ending == Closed <==> r[|r| - 1] == Data([])
    ensures ending == Silent <==> r[|r| - 1] == TimedOut
    decreases |stream|
  {
    if |stream| >= ReadSize then [Data(stream[..ReadSize])] + Reads(stream[ReadSize..], ending)
    else
      match ending
      case Closed => if stream == [] then [Data([])] else [Data(stream), Data([])]
      case Silent => [TimedOut]
  }

  /** Every read before the last returns data, 40 bytes except perhaps the
      one before the closing empty read. */
  lemma {:induction false} ReadsShape(stream: seq<byte>, ending: Ending)
    ensures var r := Reads(stream, ending);
            && (forall k :: 0 <= k < |r| - 1 ==> r[k].Data? && 0 < |r[k].bytes| <= ReadSize)
            && (forall k :: 0 <= k < |r| - 2 ==> r[k].Data? && |r[k].bytes| == ReadSize)
            && (ending == Silent ==> forall k :: 0 <= k < |r| - 1 ==> r[k].Data? && |r[k].bytes| == ReadSize)
    decreases |stream|
  {
    if |stream| >= ReadSize {
      var r := Reads(stream, ending);
      ReadsShape(stream[ReadSize..], ending);
      assert r[1..] == Reads(stream[ReadSize..], ending);
    }
  }

  /** When the peer closes, the data reads return the whole stream in
      order. */
  lemma {:induction false} ReadsReceive(stream: seq<byte>)
    ensures Received(Reads(stream, Closed)) == stream
    decreases |stream|
  {
    var r := Reads(stream, Closed);
    if |stream| >= ReadSize {
      ReadsReceive(stream[ReadSize..]);
      assert r[0] == Data(stream[..ReadSize]) && r[1..] == Reads(stream[ReadSize..], Closed);
      assert stream[..ReadSize] + stream[ReadSize..] == stream;
    } else if stream != [] {
      assert Received([Data([])]) == [];
      assert r[1..] == [Data([])];
    }
  }

  /** When the peer falls silent, the data reads return the start of the
      stream in order, and fewer than 40 bytes stay unread. */
  lemma {:induction false} ReadsReceiveSilent(stream: seq<byte>)
    ensures var got := Received(Reads(stream, Silent));
            got <= stream && |stream| - |got| < ReadSize
    decreases |stream|
  {
    var r := Reads(stream, Silent);
    if |stream| >= ReadSize {
      var tail := stream[ReadSize..];
      ReadsReceiveSilent(tail);
      assert r[0] == Data(stream[..ReadSize]) && r[1..] == Reads(tail, Silent);
      assert stream == stream[..ReadSize] + tail;
    }
  }

  /** The bytes the data reads returned, in order. */
  function Received(chunks: seq<Read>): (b: seq<byte>)
    decreases |chunks|
  {
    if chunks == [] then []
    else (if chunks[0].Data? then chunks[0].bytes else []) + Received(chunks[1..])
  }

  /** What one read does: go on (forwarding batches and noting a ping), or
      stop the session. */
  datatype Step = Continue(forwarded: seq<seq<Devices.Event>>, pinged: bool) | Stop(end: End)

  function FrameStep(r: Read): (s: Step)
    ensures s.Continue? ==> forall k :: 0 <= k < |s.forwarded| ==> ButtonsBinary(s.forwarded[k])
    ensures s.Stop? ==> s.end != InputExhausted && s.end != NoDevice
    ensures s == Stop(ReadAfterTimeout) <==> r == TimedOut
    ensures s == Stop(PeerClosed) <==> r == Data([])
    ensures s == Stop(CloseRequested) <==> r.Data? && r.bytes != [] && r.bytes[0] == CloseConnection
    ensures s.Continue? && s.pinged <==> r.Data? && r.bytes != [] && r.bytes[0] == Ping
    ensures s == Stop(LengthMismatch) <==>
              r.Data? && r.bytes != [] && r.bytes[0] < NButtons && |r.bytes| - 1 < 2 * r.bytes[0]
    ensures s.Continue? && s.forwarded != [] <==>
              r.Data? && r.bytes != [] && r.bytes[0] < NButtons && |r.bytes| - 1 >= 2 * r.bytes[0]
  {
    match r
    case TimedOut => Stop(ReadAfterTimeout)
    case Data(buffer) =>
      if buffer == [] then Stop(PeerClosed)
      else
        var length := buffer[0];
        if length < NButtons then
          var count := length * 2;
          if |buffer| - 1 < count then Stop(LengthMismatch)
          else Continue([Normalized(buffer[1..1 + count])], false)
        else if length == CloseConnection then Stop(CloseRequested)
        else if length == Ping then Continue([], true)
        else Continue([], false)
  }

  /** The whole session of a pad with a device: the batches forwarded, whether
      any ping arrived, and how it ended. */
  datatype Trace = Trace(forwarded: seq<seq<Devices.Event>>, pinged: bool, end: End)

  function HandleRun(chunks: seq<Read>): (t: Trace)
    decreases |chunks|
    ensures t.end != NoDevice
    ensures forall k :: 0 <= k < |t.forwarded| ==> ButtonsBinary(t.forwarded[k])
    ensures |t.forwarded| <= |chunks|
  {
    if chunks == [] then Trace([], false, InputExhausted)
    else
      match FrameStep(chunks[0])
      case Stop(end) => Trace([], false, end)
      case Continue(forwarded, pinged) =>
        var rest := HandleRun(chunks[1..]);
        Trace(forwarded + rest.forwarded, pinged || rest.pinged, rest.end)
  }

  /** The session from read `i` on: that read's step, then the rest. */
  lemma HandleRunAt(chunks: seq<Read>, i: nat)
    requires i < |chunks|
    ensures HandleRun(chunks[i..]) ==
              match FrameStep(chunks[i])
              case Stop(end) => Trace([], false, end)
              case Continue(f, p) =>
                Trace(f + HandleRun(chunks[i + 1..]).forwarded,
                      p || HandleRun(chunks[i + 1..]).pinged, HandleRun(chunks[i + 1..]).end)
  {
    assert chunks[i..][0] == chunks[i] && chunks[i..][1..] == chunks[i + 1..];
  }

  /** The loop invariant of `Handle` carried over one read that continues. */
  lemma HandleRunContinue(chunks: seq<Read>, i: nat, forwarded: seq<seq<Devices.Event>>, pinged: bool,
                          f: seq<seq<Devices.Event>>, p: bool)
    requires i < |chunks| && FrameStep(chunks[i]) == Continue(f, p)
    requires HandleRun(chunks) == Trace(forwarded + HandleRun(chunks[i..]).forwarded,
                                        pinged || HandleRun(chunks[i..]).pinged, HandleRun(chunks[i..]).end)
    ensures HandleRun(chunks) == Trace((forwarded + f) + HandleRun(chunks[i + 1..]).forwarded,
                                       (pinged || p) || HandleRun(chunks[i + 1..]).pinged, HandleRun(chunks[i + 1..]).end)
  {
    HandleRunAt(chunks, i);
    Associative(forwarded, f, HandleRun(chunks[i + 1..]).forwarded);
  }

  /** The loop invariant of `Handle` at a read that stops the session. */
  lemma HandleRunStop(chunks: seq<Read>, i: nat, forwarded: seq<seq<Devices.Event>>, pinged: bool, end: End)
    requires i < |chunks| && FrameStep(chunks[i]) == Stop(end)
    requires HandleRun(chunks) == Trace(forwarded + HandleRun(chunks[i..]).forwarded,
                                        pinged || HandleRun(chunks[i..]).pinged, HandleRun(chunks[i..]).end)
    ensures HandleRun(chunks) == Trace(forwarded, pinged, end)
  {
    HandleRunAt(chunks, i);
    assert forwarded + [] == forwarded;
  }

  /** A session whose reads run out can be continued by more reads: the
      frame loop keeps no state of its own between reads. */
  lemma {:induction false} HandleRunAppend(a: seq<Read>, b: seq<Read>)
    requires HandleRun(a).end == InputExhausted
    ensures HandleRun(a + b) ==
              Trace(HandleRun(a).forwarded + HandleRun(b).forwarded,
                    HandleRun(a).pinged || HandleRun(b).pinged, HandleRun(b).end)
  {
    if a != [] {
      AppendHead(a);
      HandleRunAppend(a[1..], b);
      AppendJoin(a, b);
    } else {
      assert a + b == b;
    }
  }

  /** A session whose reads run out continues at its first read. */
  lemma AppendHead(a: seq<Read>)
    requires a != [] && HandleRun(a).end == InputExhausted
    ensures FrameStep(a[0]).Continue? && HandleRun(a[1..]).end == InputExhausted
    ensures HandleRun(a) == Trace(FrameStep(a[0]).forwarded + HandleRun(a[1..]).forwarded,
                                  FrameStep(a[0]).pinged || HandleRun(a[1..]).pinged, InputExhausted)
  {
  }

  /** The step of `HandleRunAppend` from `a[1..]` to `a`. */
  lemma AppendJoin(a: seq<Read>, b: seq<Read>)
    requires a != [] && FrameStep(a[0]).Continue?
    requires HandleRun(a) == Trace(FrameStep(a[0]).forwarded + HandleRun(a[1..]).forwarded,
                                   FrameStep(a[0]).pinged || HandleRun(a[1..]).pinged, InputExhausted)
    requires HandleRun(a[1..] + b) == Trace(HandleRun(a[1..]).forwarded + HandleRun(b).forwarded,
                                            HandleRun(a[1..]).pinged || HandleRun(b).pinged, HandleRun(b).end)
    ensures HandleRun(a + b) == Trace(HandleRun(a).forwarded + HandleRun(b).forwarded,
                                      HandleRun(a).pinged || HandleRun(b).pinged, HandleRun(b).end)
  {
    var step := FrameStep(a[0]);
    var tail, rest := HandleRun(a[1..]), HandleRun(b);
    ConsAppend(a, b);
    HandleRunCons(a + b);
    assert HandleRun(a + b) == Trace(step.forwarded + (tail.forwarded + rest.forwarded),
                                     step.pinged || (tail.pinged || rest.pinged), rest.end);
    Associative(step.forwarded, tail.forwarded, rest.forwarded);
  }

  /** The session of reads whose first one continues. */
  lemma HandleRunCons(chunks: seq<Read>)
    requires chunks != [] && FrameStep(chunks[0]).Continue?
    ensures HandleRun(chunks) == Trace(FrameStep(chunks[0]).forwarded + HandleRun(chunks[1..]).forwarded,
                                       FrameStep(chunks[0]).pinged || HandleRun(chunks[1..]).pinged,
                                       HandleRun(chunks[1..]).end)
  {
  }

  /** A session whose last read stops it ends there, whatever came before. */
  lemma {:induction false} StopEndsRun(chunks: seq<Read>)
    requires chunks != [] && FrameStep(chunks[|chunks| - 1]).Stop?
    ensures HandleRun(chunks).end != InputExhausted
    decreases |chunks|
  {
    if FrameStep(chunks[0]).Continue? {
      assert chunks[1..][|chunks[1..]| - 1] == chunks[|chunks| - 1];
      StopEndsRun(chunks[1..]);
    }
  }

  /** Every session over a socket ends: by the peer closing, a close frame,
      a short frame or the read after a timeout. */
  lemma SessionEnds(stream: seq<byte>, ending: Ending)
    ensures HandleRun(Reads(stream, ending)).end in {PeerClosed, CloseRequested, LengthMismatch, ReadAfterTimeout}
  {
    StopEndsRun(Reads(stream, ending));
  }

  /** A frame as a client sends it: the bytes it means, zero-filled to the
      size of one read. */
  function Frame(bytes: seq<byte>): (f: seq<byte>)
    requires |bytes| <= ReadSize
    ensures |f| == ReadSize && f[..|bytes|] == bytes
  {
    bytes + Zeros(ReadSize - |bytes|)
  }

  /** A whole read at the head of the stream is the first read. */
  lemma ReadsFrame(f: seq<byte>, rest: seq<byte>, ending: Ending)
    requires |f| == ReadSize
    ensures Reads(f + rest, ending) == [Data(f)] + Reads(rest, ending)
  {
    assert (f + rest)[..ReadSize] == f && (f + rest)[ReadSize..] == rest;
  }

  /** A session that pings, forwards one press and one release, and closes. */
  lemma SessionScenario()
    ensures HandleRun(Reads(Frame([19]) + (Frame([1, 8, 7]) + (Frame([1, 8, 0]) + Frame([18]))), Closed))
            == Trace([[(8, 1)], [(8, 0)]], true, CloseRequested)
  {
    var f1, f2, f3, f4 := Frame([19]), Frame([1, 8, 7]), Frame([1, 8, 0]), Frame([18]);
    FourFrames(f1, f2, f3, f4);
    FramesScenario(f1, f2, f3, f4);
  }

  /** Four whole frames and then the peer closing are read one frame at a
      time, then as the empty read. */
  lemma FourFrames(f1: seq<byte>, f2: seq<byte>, f3: seq<byte>, f4: seq<byte>)
    requires |f1| == |f2| == |f3| == |f4| == ReadSize
    ensures Reads(f1 + (f2 + (f3 + f4)), Closed) == [Data(f1), Data(f2), Data(f3), Data(f4), Data([])]
  {
    var r4 := Reads(f4, Closed);
    LastFrame(f4);
    var r3 := Reads(f3 + f4, Closed);
    ReadsFrame(f3, f4, Closed);
    assert r3 == [Data(f3), Data(f4), Data([])];
    var r2 := Reads(f2 + (f3 + f4), Closed);
    ReadsFrame(f2, f3 + f4, Closed);
    assert r2 == [Data(f2), Data(f3), Data(f4), Data([])];
    ReadsFrame(f1, f2 + (f3 + f4), Closed);
  }

  /** One whole frame and then the peer closing. */
  lemma LastFrame(f: seq<byte>)
    requires |f| == ReadSize
    ensures Reads(f, Closed) == [Data(f), Data([])]
  {
    assert f[..ReadSize] == f && f[ReadSize..] == [];
  }

  /** The frame loop over the reads of `SessionScenario`. */
  lemma FramesScenario(f1: seq<byte>, f2: seq<byte>, f3: seq<byte>, f4: seq<byte>)
    requires |f1| == |f2| == |f3| == |f4| == ReadSize
    requires f1[..1] == [19] && f2[..3] == [1, 8, 7] && f3[..3] == [1, 8, 0] && f4[..1] == [18]
    ensures HandleRun([Data(f1), Data(f2), Data(f3), Data(f4), Data([])]) == Trace([[(8, 1)], [(8, 0)]], true, CloseRequested)
  {
    var chunks := [Data(f1), Data(f2), Data(f3), Data(f4), Data([])];
    ScenarioSteps(f1, f2, f3, f4);
    HandleRunAt(chunks, 3);
    assert HandleRun(chunks[3..]) == Trace([], false, CloseRequested);
    HandleRunAt(chunks, 2);
    assert HandleRun(chunks[2..]) == Trace([[(8, 0)]], false, CloseRequested);
    HandleRunAt(chunks, 1);
    assert HandleRun(chunks[1..]) == Trace([[(8, 1)], [(8, 0)]], false, CloseRequested);
    HandleRunAt(chunks, 0);
    assert chunks[0..] == chunks;
  }

  /** What each read of `FramesScenario` does on its own. */
  lemma ScenarioSteps(f1: seq<byte>, f2: seq<byte>, f3: seq<byte>, f4: seq<byte>)
    requires |f1| == |f2| == |f3| == |f4| == ReadSize
    requires f1[..1] == [19] && f2[..3] == [1, 8, 7] && f3[..3] == [1, 8, 0] && f4[..1] == [18]
    ensures FrameStep(Data(f1)) == Continue([], true)
    ensures FrameStep(Data(f2)) == Continue([[(8, 1)]], false)
    ensures FrameStep(Data(f3)) == Continue([[(8, 0)]], false)
    ensures FrameStep(Data(f4)) == Stop(CloseRequested)
  {
    assert FrameStep(Data(f1)) == Continue([], true) by {
      assert f1[0] == f1[..1][0];
    }
    assert FrameStep(Data(f2)) == Continue([[(8, 1)]], false) by {
      assert f2[0] == f2[..3][0] && f2[1..3] == f2[..3][1..];
      assert Normalized([8, 7]) == [(8, 1)];
    }
    assert FrameStep(Data(f3)) == Continue([[(8, 0)]], false) by {
      assert f3[0] == f3[..3][0] && f3[1..3] == f3[..3][1..];
      assert Normalized([8, 0]) == [(8, 0)];
    }
    assert FrameStep(Data(f4)) == Stop(CloseRequested) by {
      assert f4[0] == f4[..1][0];
    }
  }

  /** A pad that pings and then falls silent is cut off at the read after
      the timeout: its ping still counts. */
  lemma SilentScenario()
    ensures HandleRun(Reads(Frame([19]), Silent)) == Trace([], true, ReadAfterTimeout)
  {
    var chunks := Reads(Frame([19]), Silent);
    assert Frame([19])[..ReadSize] == Frame([19]) && Frame([19])[ReadSize..] == [];
    assert Reads([], Silent) == [TimedOut];
    assert chunks == [Data(Frame([19])), TimedOut];
    HandleRunAt(chunks, 0);
    HandleRunAt(chunks, 1);
  }

  /** An event frame cut short by the peer closing is a length mismatch. */
  lemma TruncatedScenario()
    ensures HandleRun(Reads([2, 8, 1], Closed)) == Trace([], false, LengthMismatch)
  {
  }

  /** Whether `setup` goes on to initialise the pad after the handshake, as
      written: the index is tested for truth, which index 0 fails. */
  function InitsPadAsWritten(padIndex: Option<byte>): (b: bool)
    ensures b <==> InitsPad(padIndex) && padIndex != Some(0)
  {
    padIndex.Some? && padIndex.value != 0
  }

  /** Whether `setup` initialises the pad, as intended: after any successful
      login, whatever the index. */
  function InitsPad(padIndex: Option<byte>): (b: bool)
    ensures b ==> padIndex.Some?
    ensures forall i: byte :: padIndex == Some(i) ==> b
  {
    padIndex.Some?
  }

  /** A successful login to pad 0 never gets its device as written. */
  lemma PadZeroNeverInitialised(read: seq<byte>, pool: seq<Option<Pool.Entry>>, passwords: seq<string>)
    requires |read| <= Handshake.HandshakeLength
    requires |pool| == Handshake.MaxPadCount && |passwords| == Handshake.MaxPadCount
    requires PadAuth(read, pool, passwords).Ok? && PadAuth(read, pool, passwords).value.success
    requires read[0] == 0
    ensures InitsPad(PadAuth(read, pool, passwords).value.index)
    ensures !InitsPadAsWritten(PadAuth(read, pool, passwords).value.index)
  {
  }

  /** The broadcast a pad initialisation sends. */
  datatype Notice = PadSet(index: byte, nickname: string)

  /** One pad connection. `deviceActive` stands for the handler holding the
      pool's device for its pad. */
  class PadHandler {
    var hasPing: bool
    var padIndex: Option<byte>
    var nickname: Option<string>
    var deviceActive: bool

    ghost predicate Valid()
      reads this
    {
      && (padIndex.Some? <==> nickname.Some?)
      && (deviceActive ==> padIndex.Some? && padIndex.value < Handshake.MaxPadCount)
    }

    /** A new connection: no ping seen, no pad, no nickname, no device. */
    constructor ()
      ensures Valid()
      ensures !hasPing && padIndex == None && nickname == None && !deviceActive
    {
      hasPing := false;
      padIndex := None;
      nickname := None;
      deviceActive := false;
    }

    /** Forwarding one payload: nothing without a device; an odd-length
        payload fails to unpack its last pair; otherwise each pair is
        normalised, count and order kept. */
    method ProcessEvents(buffer: seq<byte>) returns (r: Result<Option<seq<Devices.Event>>, ()>)
      ensures !deviceActive ==> r == Ok(None)
      ensures deviceActive && |buffer| % 2 == 1 ==> r == Err(())
      ensures deviceActive && |buffer| % 2 == 0 ==> r.Ok? && r.value.Some?
      ensures r.Ok? && r.value.Some? ==>
                && |r.value.value| == |buffer| / 2
                && (forall j :: 0 <= j < |r.value.value| ==> r.value.value[j].0 == buffer[2 * j])
                && (forall j :: 0 <= j < |r.value.value| && buffer[2 * j] >= Devices.NButtons ==>
                      r.value.value[j].1 == buffer[2 * j + 1])
                && (forall j :: 0 <= j < |r.value.value| && buffer[2 * j] < Devices.NButtons ==>
                      r.value.value[j].1 == (if buffer[2 * j + 1] == 0 then 0 else 1))
                && r.value.value == Normalized(buffer)
    {
      if !deviceActive {
        return Ok(None);
      }
      var fixed: seq<Devices.Event> := [];
      var index := 0;
      while index < |buffer|
        invariant 0 <= index <= |buffer| && index % 2 == 0
        invariant |fixed| == index / 2
        invariant forall j :: 0 <= j < |fixed| ==> 2 * j + 1 < |buffer| && fixed[j] == Normalize(buffer[2 * j], buffer[2 * j + 1])
      {
        if index + 1 >= |buffer| {
          return Err(());
        }
        var key, state := buffer[index], buffer[index + 1];
        fixed := fixed + [Normalize(key, state)];
        index := index + 2;
      }
      return Ok(Some(fixed));
    }

    /** Setup after the connection is accepted: the handshake, then, on
        success, the pad initialisation that fills the pool entry and
        announces it. A raising handshake answers nothing. */
    method Setup(read: seq<byte>, pool: Pool.PadPool, passwords: seq<string>, deviceName: string)
      returns (reply: seq<byte>, notices: seq<Notice>, fault: Option<Handshake.Fault>)
      requires Valid() && pool.Valid()
      requires padIndex == None && !deviceActive
      requires |read| <= Handshake.HandshakeLength && |passwords| == Handshake.MaxPadCount
      modifies this, pool.entries
      ensures Valid() && hasPing == old(hasPing)
      ensures var a := PadAuth(read, old(pool.entries[..]), passwords);
              && (a.Err? ==> fault == Some(a.error) && reply == [])
              && (a.Ok? ==> fault == None && reply == [a.value.reply])
              && (a.Ok? && a.value.success ==>
                    && padIndex == a.value.index && nickname == a.value.nickname && deviceActive
                    && notices == [PadSet(a.value.index.value, a.value.nickname.value)]
                    && pool.entries[..] == old(pool.entries[..])[a.value.index.value :=
                         Some(Pool.Entry(Pool.PoolDevice(Pool.DeviceName(deviceName, a.value.index.value)),
                                         a.value.nickname.value))])
              && (!(a.Ok? && a.value.success) ==>
                    && padIndex == None && nickname == None && !deviceActive
                    && notices == [] && pool.entries[..] == old(pool.entries[..]))
    {
      reply, notices, fault := [], [], None;
      var auth := PadAuth(read, pool.entries[..], passwords);
      if auth.Err? {
        fault := Some(auth.error);
        return;
      }
      reply := [auth.value.reply];
      if auth.value.success {
        padIndex := auth.value.index;
        nickname := auth.value.nickname;
      }
      if InitsPad(padIndex) {
        var index := padIndex.value;
        var err := pool.Set(index, deviceName, nickname.value);
        assert err == None;
        notices := [PadSet(index, nickname.value)];
        var entry := pool.Get(index);
        deviceActive := entry.value.0.Some?;
      }
    }

    /** The dispatch on one read of a handler that holds its device: an
        unknown first byte is skipped, a timeout (through the read after it),
        an empty read or a close frame stops, a ping is noted, and an event
        frame is forwarded when its whole payload arrived. */
    method ReadFrame(r: Read) returns (step: Step)
      requires deviceActive
      ensures step == FrameStep(r)
    {
      if r.TimedOut? {
        return Stop(ReadAfterTimeout);
      }
      var buffer := r.bytes;
      if buffer == [] {
        return Stop(PeerClosed);
      }
      var length := buffer[0];
      if length < NButtons {
        var count := length * 2;
        var commands := buffer[1..if 1 + count <= |buffer| then 1 + count else |buffer|];
        if |commands| != count {
          return Stop(LengthMismatch);
        }
        var events := ProcessEvents(commands);
        step := Continue([events.value.value], false);
      } else if length == CloseConnection {
        step := Stop(CloseRequested);
      } else if length == Ping {
        step := Continue([], true);
      } else {
        step := Continue([], false);
      }
    }

    /** The loop of `Handle` over the reads of a handler that holds its
        device, marking the pad's heartbeat on a ping. */
    method Frames(chunks: seq<Read>, index: byte, heartbeats: array<bool>)
      returns (forwarded: seq<seq<Devices.Event>>, end: End)
      requires deviceActive && index < heartbeats.Length
      modifies heartbeats
      ensures var t := HandleRun(chunks);
              && forwarded == t.forwarded && end == t.end
              && heartbeats[..] == (if t.pinged then old(heartbeats[..])[index := true] else old(heartbeats[..]))
    {
      ghost var beats := heartbeats[..];
      var pinged := false;
      var i := 0;
      forwarded, end := [], InputExhausted;
      while i < |chunks|
        invariant 0 <= i <= |chunks|
        invariant end == InputExhausted
        invariant HandleRun(chunks) ==
                    Trace(forwarded + HandleRun(chunks[i..]).forwarded,
                          pinged || HandleRun(chunks[i..]).pinged, HandleRun(chunks[i..]).end)
        invariant heartbeats[..] == (if pinged then beats[index := true] else beats)
      {
        var step := ReadFrame(chunks[i]);
        if step.Stop? {
          end := step.end;
          HandleRunStop(chunks, i, forwarded, pinged, end);
          return;
        }
        HandleRunContinue(chunks, i, forwarded, pinged, step.forwarded, step.pinged);
        forwarded := forwarded + step.forwarded;
        if step.pinged {
          heartbeats[index] := true;
          pinged := true;
        }
        i := i + 1;
      }
      assert chunks[i..] == [];
    }

    /** The frame loop over the bytes the peer sends until it closes or
        falls silent. Without a device it does nothing. Otherwise reads are
        handled until one stops the session, which always happens: a ping
        marks the pad in the module-wide heartbeat table (and leaves
        `hasPing` alone), a close frame clears the pool entry, and however
        the loop ends the handler drops its device. */
    method Handle(stream: seq<byte>, ending: Ending, pool: Pool.PadPool, heartbeats: array<bool>)
      returns (forwarded: seq<seq<Devices.Event>>, end: End, clearError: Option<Pool.PoolError>)
      requires Valid() && pool.Valid() && heartbeats.Length == Handshake.MaxPadCount
      modifies this, pool.entries, heartbeats
      ensures Valid() && !deviceActive
      ensures hasPing == old(hasPing) && padIndex == old(padIndex) && nickname == old(nickname)
      ensures !old(deviceActive) ==>
                && forwarded == [] && end == NoDevice && clearError == None
                && pool.entries[..] == old(pool.entries[..]) && heartbeats[..] == old(heartbeats[..])
      ensures old(deviceActive) ==>
                var index := old(padIndex).value;
                var t := HandleRun(Reads(stream, ending));
                && forwarded == t.forwarded && end == t.end && end != InputExhausted
                && heartbeats[..] == (if t.pinged then old(heartbeats[..])[index := true] else old(heartbeats[..]))
                && (end == CloseRequested && old(pool.entries[..])[index].Some? ==>
                      clearError == None && pool.entries[..] == old(pool.entries[..])[index := None])
                && (end == CloseRequested && old(pool.entries[..])[index].None? ==>
                      clearError == Some(Pool.PadNotInUse(index)) && pool.entries[..] == old(pool.entries[..]))
                && (end != CloseRequested ==> clearError == None && pool.entries[..] == old(pool.entries[..]))
    {
      forwarded, end, clearError := [], NoDevice, None;
      if deviceActive {
        var index := padIndex.value;
        forwarded, end := Frames(Reads(stream, ending), index, heartbeats);
        SessionEnds(stream, ending);
        if end == CloseRequested {
          clearError := pool.Clear(index);
        }
      }
      deviceActive := false;
    }
  }
}
