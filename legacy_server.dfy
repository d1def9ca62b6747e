/** The older pad protocol of virtualpad/server.py: one thread per connection
    reads a handshake into a fixed 32-byte buffer, answers it, and then reads
    frames into the same buffer until the pad is released. The peer's data
    is a list of segments as the network delivers them; every exception the
    loop raises is swallowed and the connection closed. */
module LegacyServer {
  import opened Base
  import Pool
  import Handshake
  import Devices

  const BufLen := 32
  /** The first frame byte that releases the pad. */
  const CloseConnection := BufLen

  // The one-byte answers; the termination notice reuses the success code.
  const PadInvalid: byte := 0
  const PadBusy: byte := 1
  const LoginSuccess: byte := 2
  const LoginFailure: byte := 3
  const Terminated: byte := 2

  /** The code the server answers a handshake decision with; a client cannot
      tell a termination notice from a successful login. */
  function ReplyCode(d: Handshake.Decision): (c: byte)
    ensures c == Terminated <==> d == Handshake.Accepted
    ensures c == LoginSuccess <==> d == Handshake.Accepted
  {
    match d
    case InvalidPad => PadInvalid
    case BusyPad => PadBusy
    case WrongPassword => LoginFailure
    case Accepted => LoginSuccess
  }

  // ---------------------------------------------------------------------
  // Receiving from the peer.

  predicate AllNonEmpty(segments: seq<seq<byte>>)
  {
    forall k :: 0 <= k < |segments| ==> segments[k] != []
  }

  /** The bytes still to arrive. */
  function Total(segments: seq<seq<byte>>): nat
  {
    if segments == [] then 0 else |segments[0]| + Total(segments[1..])
  }

  /** The bytes still to arrive, in order. */
  function Flatten(segments: seq<seq<byte>>): (b: seq<byte>)
    ensures |b| == Total(segments)
  {
    if segments == [] then [] else segments[0] + Flatten(segments[1..])
  }

  /** One receive of at most `n` bytes: the head segment, or as much of it
      as fits, with the rest left for the next receive; nothing at end of
      stream. */
  function Recv(segments: seq<seq<byte>>, n: nat): (r: (seq<byte>, seq<seq<byte>>))
    requires n >= 1 && AllNonEmpty(segments)
    ensures |r.0| <= n && AllNonEmpty(r.1)
    ensures r.0 == [] <==> segments == []
    ensures Total(r.1) == Total(segments) - |r.0|
  {
    if segments == [] then ([], [])
    else if |segments[0]| <= n then (segments[0], segments[1..])
    else
      var rest := [segments[0][n..]] + segments[1..];
      assert rest[0] == segments[0][n..] && rest[1..] == segments[1..];
      (segments[0][..n], rest)
  }

  /** A receive takes the head segment, or its first `n` bytes when it is
      longer, and loses and reorders nothing: the bytes received, then those
      still queued, are the bytes queued before. */
  lemma RecvKeepsStream(segments: seq<seq<byte>>, n: nat)
    requires n >= 1 && AllNonEmpty(segments)
    ensures var r := Recv(segments, n);
            segments != [] ==>
              |r.0| == (if |segments[0]| <= n then |segments[0]| else n) && r.0 == segments[0][..|r.0|]
    ensures Recv(segments, n).0 + Flatten(Recv(segments, n).1) == Flatten(segments)
  {
    if segments != [] && |segments[0]| > n {
      var head, tail := segments[0][..n], segments[0][n..];
      var rest := Recv(segments, n).1;
      assert rest[0] == tail && rest[1..] == segments[1..];
      Associative(head, tail, Flatten(segments[1..]));
      assert head + tail == segments[0];
    }
  }

  /** The connection as the loop sees it: what is still to arrive, what was
      sent back, and whether it was closed. */
  class Socket {
    var incoming: seq<seq<byte>>
    var sent: seq<byte>
    var closed: bool

    ghost predicate Valid()
      reads this
    {
      AllNonEmpty(incoming)
    }

    constructor (incoming: seq<seq<byte>>)
      requires AllNonEmpty(incoming)
      ensures Valid() && this.incoming == incoming && sent == [] && !closed
    {
      this.incoming := incoming;
      sent := [];
      closed := false;
    }

    /** `recv_into(buffer, nbytes)`: receives at most `nbytes` bytes (the
        whole buffer when `nbytes` is 0) into the start of the buffer and
        answers how many arrived; the rest of the buffer keeps its bytes. */
    method RecvInto(buffer: array<byte>, nbytes: nat) returns (received: nat)
      requires Valid() && 1 <= buffer.Length && nbytes <= buffer.Length
      modifies this, buffer
      ensures Valid() && sent == old(sent) && closed == old(closed)
      ensures var r := Recv(old(incoming), if nbytes == 0 then buffer.Length else nbytes);
              && received == |r.0| && incoming == r.1
              && buffer[..] == r.0 + old(buffer[..])[|r.0|..]
    {
      var r := Recv(incoming, if nbytes == 0 then buffer.Length else nbytes);
      var got := r.0;
      for k := 0 to |got|
        invariant unchanged(this)
        invariant forall j :: 0 <= j < k ==> buffer[j] == got[j]
        invariant forall j :: k <= j < buffer.Length ==> buffer[j] == old(buffer[j])
      {
        buffer[k] := got[k];
      }
      assert buffer[..] == got + old(buffer[..])[|got|..];
      incoming := r.1;
      received := |got|;
    }

    method Send(data: seq<byte>)
      modifies this
      ensures incoming == old(incoming) && closed == old(closed) && sent == old(sent) + data
    {
      sent := sent + data;
    }

    method Close()
      modifies this
      ensures incoming == old(incoming) && sent == old(sent) && closed
    {
      closed := true;
    }
  }

  // ---------------------------------------------------------------------
  // Event normalisation.

  /** One (key, state) pair as forwarded, as written: buttons 0..9 get 0 or
      1, the two axis keys 10 and 11 get -1 for a state of 2 or more and 1
      otherwise (so a centred axis, state 0, becomes 1), other keys are
      dropped. */
  function FixAsWritten(key: byte, state: byte): (e: Option<Devices.Event>)
    ensures e.Some? <==> key < 12
    ensures 10 <= key < 12 ==> e.value.1 != 0
  {
    if 10 <= key < 12 then Some((key, if state >= 2 then -1 else 1))
    else if key < 10 then Some((key, if state == 0 then 0 else 1))
    else None
  }

  /** One (key, state) pair as forwarded, as intended: axis keys 10 and 11
      map 0 to 0, 1 to 1 and anything larger to -1. */
  function Fix(key: byte, state: byte): (e: Option<Devices.Event>)
    ensures e.Some? <==> key < 12
    ensures e.Some? ==> e.value.0 == key
    ensures key < 10 ==> (e.value.1 == 0 <==> state == 0) && (e.value.1 == 0 || e.value.1 == 1)
    ensures 10 <= key < 12 ==> (e.value.1 == 0 <==> state == 0) && (e.value.1 == 1 <==> state == 1)
                               && (e.value.1 == -1 <==> state >= 2)
  {
    if 10 <= key < 12 then Some((key, if state == 0 then 0 else if state == 1 then 1 else -1))
    else if key < 10 then Some((key, if state == 0 then 0 else 1))
    else None
  }

  /** A centred D-pad axis is sent as pressed towards its high end as
      written, and as centred as intended. */
  lemma CentredAxisDiscrepancy(key: byte)
    requires 10 <= key < 12
    ensures FixAsWritten(key, 0) == Some((key, 1))
    ensures Fix(key, 0) == Some((key, 0))
  {
  }

  function AsList(e: Option<Devices.Event>): seq<Devices.Event>
  {
    if e.Some? then [e.value] else []
  }

  /** The forwarded events of a payload: its pairs in order, a trailing odd
      byte ignored, unknown keys dropped. */
  function Fixed(contents: seq<byte>): (r: seq<Devices.Event>)
    ensures |r| <= |contents| / 2
    ensures forall j :: 0 <= j < |r| ==> 0 <= r[j].0 < 12
    decreases |contents|
  {
    if |contents| < 2 then [] else AsList(Fix(contents[0], contents[1])) + Fixed(contents[2..])
  }

  /** Payloads split on a pair boundary are forwarded piece by piece, so
      order is kept. */
  lemma {:induction false} FixedAppend(a: seq<byte>, b: seq<byte>)
    requires |a| % 2 == 0
    ensures Fixed(a + b) == Fixed(a) + Fixed(b)
    decreases |a|
  {
    if a == [] {
      assert a + b == b;
    } else {
      assert (a + b)[2..] == a[2..] + b;
      FixedAppend(a[2..], b);
    }
  }

  /** The forwarded events of the first `length` buffer bytes, `length`
      rounded down to even. */
  method ProcessEvents(length: nat, buffer: array<byte>) returns (fixed: seq<Devices.Event>)
    requires length <= buffer.Length
    ensures fixed == Fixed(buffer[..length])
  {
    var contents := buffer[..length];
    fixed := [];
    var index := 0;
    while index + 1 < length
      invariant 0 <= index <= length
      invariant Fixed(contents) == fixed + Fixed(contents[index..])
    {
      var key, state := contents[index], contents[index + 1];
      FixedAt(contents, index, fixed);
      fixed := fixed + AsList(Fix(key, state));
      index := index + 2;
    }
    FixedTail(contents, index);
  }

  /** One loop step: the pair at `i` joins what has been forwarded. */
  lemma FixedAt(c: seq<byte>, i: nat, done: seq<Devices.Event>)
    requires i + 2 <= |c|
    requires Fixed(c) == done + Fixed(c[i..])
    ensures Fixed(c) == (done + AsList(Fix(c[i], c[i + 1]))) + Fixed(c[i + 2..])
  {
    var t := c[i..];
    assert t[0] == c[i] && t[1] == c[i + 1] && t[2..] == c[i + 2..];
    assert Fixed(t) == AsList(Fix(t[0], t[1])) + Fixed(t[2..]);
    Associative(done, AsList(Fix(c[i], c[i + 1])), Fixed(c[i + 2..]));
  }

  lemma FixedTail(c: seq<byte>, i: nat)
    requires i <= |c| && i + 1 >= |c|
    ensures Fixed(c[i..]) == []
  {
  }

  // ---------------------------------------------------------------------
  // The connection.

  /** How a connection ends. `Aborted`: an exception (a handshake text that
      is not UTF-8) was swallowed. `Rejected`: a refusal code was sent.
      `Closed`: a release frame cleared the pad. `Spins`: the stream ended
      and the loop repeats the same iteration forever. */
  datatype End = Aborted | Rejected | Closed | Spins

  datatype LoopTrace = LoopTrace(forwarded: seq<seq<Devices.Event>>, end: End)

  /** The frame loop over what is left of the stream, `stale` being the
      buffer's first byte. At end of stream the length read keeps the stale
      byte: a release code there releases, anything else repeats forever. A
      count below 32 receives up to that many bytes (up to the whole buffer
      for 0) and forwards them; a larger code other than the release is
      ignored. */
  function LoopRun(segments: seq<seq<byte>>, stale: byte): (t: LoopTrace)
    requires AllNonEmpty(segments)
    ensures t.end == Closed || t.end == Spins
    decreases Total(segments)
  {
    match Step(segments, stale)
    case Finish(end) => LoopTrace([], end)
    case Next(batch, rest, next) =>
      var t := LoopRun(rest, next);
      LoopTrace(batch + t.forwarded, t.end)
  }

  /** One turn of the frame loop: it finishes, or it forwards at most one
      batch and leaves the rest of the stream and a new first buffer byte. */
  datatype LoopStep = Finish(end: End) | Next(batch: seq<seq<Devices.Event>>, rest: seq<seq<byte>>, stale: byte)

  function Step(segments: seq<seq<byte>>, stale: byte): (s: LoopStep)
    requires AllNonEmpty(segments)
    ensures s.Finish? ==> s.end == Closed || s.end == Spins
    ensures s.Next? ==> AllNonEmpty(s.rest) && Total(s.rest) < Total(segments) && |s.batch| <= 1
  {
    var (head, rest) := Recv(segments, 1);
    if head == [] then Finish(if stale == CloseConnection then Closed else Spins)
    else
      var length := head[0];
      if length < BufLen then
        var (payload, after) := Recv(rest, if length == 0 then BufLen else length);
        Next([Fixed(payload)], after, if payload == [] then length else payload[0])
      else if length == CloseConnection then Finish(Closed)
      else Next([], rest, length)
  }

  /** The handshake over the bytes the first receive delivered, the unfilled
      part of the buffer reading as zeros: the reply code, and the index and
      nickname of a successful login. Undecodable text raises. */
  function Auth(read: seq<byte>, pool: seq<Option<Pool.Entry>>, passwords: seq<string>): (r: Result<(byte, Option<(byte, string)>), Handshake.Fault>)
    requires |read| <= Handshake.HandshakeLength
    requires |pool| == Handshake.MaxPadCount && |passwords| == Handshake.MaxPadCount
    ensures var h := Handshake.Split(read + Zeros(Handshake.HandshakeLength - |read|));
            && (r.Err? <==> !ValidUtf8(h.attempted) || !ValidUtf8(h.nickname))
            && (r.Ok? ==> r.value.0 == ReplyCode(Handshake.Decide(h.index, pool, passwords, DecodeUtf8(h.attempted))))
            && (r.Ok? && r.value.1.Some? <==>
                  r.Ok? && Handshake.Decide(h.index, pool, passwords, DecodeUtf8(h.attempted)) == Handshake.Accepted)
            && (r.Ok? && r.value.1.Some? ==> r.value.1.value == (h.index, DecodeUtf8(h.nickname)))
  {
    var h := Handshake.Split(read + Zeros(Handshake.HandshakeLength - |read|));
    match Handshake.DecodeHello(h)
    case Err(e) => Err(e)
    case Ok((attempted, nickname)) =>
      var d := Handshake.Decide(h.index, pool, passwords, attempted);
      Ok((ReplyCode(d), if d == Handshake.Accepted then Some((h.index, nickname)) else None))
  }

  /** A whole connection: the bytes sent back, the login if any, the
      forwarded batches and the ending. */
  datatype Session = Session(reply: seq<byte>, login: Option<(byte, string)>,
                             forwarded: seq<seq<Devices.Event>>, end: End)

  function Run(segments: seq<seq<byte>>, pool: seq<Option<Pool.Entry>>, passwords: seq<string>): (s: Session)
    requires AllNonEmpty(segments)
    requires |pool| == Handshake.MaxPadCount && |passwords| == Handshake.MaxPadCount
    ensures |s.reply| <= 1
    ensures s.login.Some? <==> s.reply == [LoginSuccess]
    ensures s.login.Some? ==> s.login.value.0 < Handshake.MaxPadCount && pool[s.login.value.0].None?
    ensures s.login.None? ==> s.forwarded == [] && (s.end == Aborted || s.end == Rejected)
  {
    var (read, rest) := Recv(segments, Handshake.HandshakeLength);
    match Auth(read, pool, passwords)
    case Err(_) => Session([], None, [], Aborted)
    case Ok((code, None)) => Session([code], None, [], Rejected)
    case Ok((code, Some((index, nickname)))) =>
      var t := LoopRun(rest, index);
      Session([code], Some((index, nickname)), t.forwarded, t.end)
  }

  /** The frame loop of a logged-in pad over the connection's buffer, whose
      first byte is left from the previous receive. The pad's pool entry is
      emptied when the peer releases it; nothing is sent. */
  method FrameLoop(remote: Socket, pool: Pool.PadPool, buffer: array<byte>, index: byte)
    returns (forwarded: seq<seq<Devices.Event>>, end: End)
    requires remote.Valid() && pool.Valid() && buffer.Length == BufLen
    requires index < Handshake.MaxPadCount && pool.entries[index].Some?
    modifies remote, buffer, pool.entries
    ensures remote.Valid() && remote.sent == old(remote.sent) && remote.closed == old(remote.closed)
    ensures var t := LoopRun(old(remote.incoming), old(buffer[0]));
            && forwarded == t.forwarded && end == t.end
            && pool.entries[..] == (if end == Closed then old(pool.entries[..])[index := None] else old(pool.entries[..]))
  {
    forwarded := [];
    end := Spins;
    while true
      invariant remote.Valid() && remote.sent == old(remote.sent) && remote.closed == old(remote.closed)
      invariant unchanged(pool.entries)
      invariant LoopRun(old(remote.incoming), old(buffer[0])) ==
                  LoopTrace(forwarded + LoopRun(remote.incoming, buffer[0]).forwarded,
                            LoopRun(remote.incoming, buffer[0]).end)
      decreases Total(remote.incoming)
    {
      ghost var before, stale := remote.incoming, buffer[0];
      var batch, finished := ReadFrame(remote, buffer);
      if finished.Some? {
        end := finished.value;
        LoopFinish(old(remote.incoming), old(buffer[0]), forwarded, before, stale);
        if end == Closed {
          var err := pool.Clear(index);
          assert err == None;
        }
        break;
      }
      LoopContinue(old(remote.incoming), old(buffer[0]), forwarded, before, stale);
      forwarded := forwarded + batch;
    }
  }

  /** The invariant of `FrameLoop` carried over a turn that goes on. */
  lemma LoopContinue(start: seq<seq<byte>>, first: byte, forwarded: seq<seq<Devices.Event>>,
                     segments: seq<seq<byte>>, stale: byte)
    requires AllNonEmpty(start) && AllNonEmpty(segments) && Step(segments, stale).Next?
    requires LoopRun(start, first) == LoopTrace(forwarded + LoopRun(segments, stale).forwarded, LoopRun(segments, stale).end)
    ensures var s := Step(segments, stale);
            LoopRun(start, first) == LoopTrace((forwarded + s.batch) + LoopRun(s.rest, s.stale).forwarded, LoopRun(s.rest, s.stale).end)
  {
    var s := Step(segments, stale);
    Associative(forwarded, s.batch, LoopRun(s.rest, s.stale).forwarded);
  }

  /** The invariant of `FrameLoop` at the turn that finishes. */
  lemma LoopFinish(start: seq<seq<byte>>, first: byte, forwarded: seq<seq<Devices.Event>>,
                   segments: seq<seq<byte>>, stale: byte)
    requires AllNonEmpty(start) && AllNonEmpty(segments) && Step(segments, stale).Finish?
    requires LoopRun(start, first) == LoopTrace(forwarded + LoopRun(segments, stale).forwarded, LoopRun(segments, stale).end)
    ensures LoopRun(start, first) == LoopTrace(forwarded, Step(segments, stale).end)
  {
    assert forwarded + [] == forwarded;
  }

  /** One turn of the frame loop: receive the first frame byte, then, for an
      event count, its payload, and forward the payload's events. */
  method ReadFrame(remote: Socket, buffer: array<byte>) returns (batch: seq<seq<Devices.Event>>, finished: Option<End>)
    requires remote.Valid() && buffer.Length == BufLen
    modifies remote, buffer
    ensures remote.Valid() && remote.sent == old(remote.sent) && remote.closed == old(remote.closed)
    ensures var s := Step(old(remote.incoming), old(buffer[0]));
            && (s.Finish? ==> finished == Some(s.end) && batch == [])
            && (s.Next? ==> finished == None && batch == s.batch && remote.incoming == s.rest && buffer[0] == s.stale)
  {
    batch, finished := [], None;
    var got := remote.RecvInto(buffer, 1);
    var length := buffer[0];
    if got == 0 {
      finished := Some(if length == CloseConnection then Closed else Spins);
      return;
    }
    if length < BufLen {
      ghost var rest := remote.incoming;
      var receivedLength := remote.RecvInto(buffer, length);
      assert buffer[..receivedLength] == Recv(rest, if length == 0 then BufLen else length).0;
      var events := ProcessEvents(receivedLength, buffer);
      batch := [events];
    } else if length == CloseConnection {
      finished := Some(Closed);
    }
  }

  /** The first 21 bytes of a zeroed buffer after a receive of at most 21. */
  lemma HandshakeView(buffer: seq<byte>, got: seq<byte>)
    requires |got| <= Handshake.HandshakeLength && buffer == got + Zeros(BufLen)[|got|..]
    ensures buffer[..Handshake.HandshakeLength] == got + Zeros(Handshake.HandshakeLength - |got|)
    ensures buffer[0] == (got + Zeros(Handshake.HandshakeLength - |got|))[0]
  {
  }

  /** The connection thread: handshake, pad initialisation, frame loop, and
      the socket closed in `finally` when the thread gets there; a loop that
      spins at the end of the stream never does, and its socket stays open.
      The pool entry of a logged-in pad is filled, and emptied again when
      the peer releases it. */
  method PadLoop(remote: Socket, pool: Pool.PadPool, passwords: seq<string>, deviceName: string)
    returns (forwarded: seq<seq<Devices.Event>>, end: End)
    requires remote.Valid() && pool.Valid() && |passwords| == Handshake.MaxPadCount
    modifies remote, pool.entries
    ensures var s := Run(old(remote.incoming), old(pool.entries[..]), passwords);
            && (remote.closed <==> old(remote.closed) || s.end != Spins)
            && remote.sent == old(remote.sent) + s.reply
            && forwarded == s.forwarded && end == s.end
            && pool.entries[..] ==
                 (if s.login.Some? && s.end == Spins
                  then old(pool.entries[..])[s.login.value.0 :=
                         Some(Pool.Entry(Pool.PoolDevice(Pool.DeviceName(deviceName, s.login.value.0)), s.login.value.1))]
                  else old(pool.entries[..]))
  {
    forwarded := [];
    var buffer := new byte[BufLen](_ => 0);
    assert buffer[..] == Zeros(BufLen);
    var login, aborted := Login(remote, pool, passwords, buffer);
    if login.None? {
      end := if aborted then Aborted else Rejected;
      remote.Close();
      return;
    }
    var (index, nickname) := login.value;
    var err := pool.Set(index, deviceName, nickname);
    assert err == None;
    forwarded, end := FrameLoop(remote, pool, buffer, index);
    if end == Closed {
      assert pool.entries[..] == old(pool.entries[..]);
    }
    if end != Spins {
      remote.Close();
    }
  }

  /** The handshake of `PadLoop`: receive up to 21 bytes into the zeroed
      buffer, decode the texts (a decoding error aborts before anything is
      sent), decide and send the reply code. */
  method Login(remote: Socket, pool: Pool.PadPool, passwords: seq<string>, buffer: array<byte>)
    returns (login: Option<(byte, string)>, aborted: bool)
    requires remote.Valid() && pool.Valid() && |passwords| == Handshake.MaxPadCount
    requires buffer.Length == BufLen && buffer[..] == Zeros(BufLen)
    modifies remote, buffer
    ensures remote.Valid() && remote.closed == old(remote.closed)
    ensures remote.incoming == Recv(old(remote.incoming), Handshake.HandshakeLength).1
    ensures var a := Auth(Recv(old(remote.incoming), Handshake.HandshakeLength).0, pool.entries[..], passwords);
            a.Err? ==> aborted && login == None && remote.sent == old(remote.sent)
    ensures var a := Auth(Recv(old(remote.incoming), Handshake.HandshakeLength).0, pool.entries[..], passwords);
            a.Ok? ==> !aborted && login == a.value.1 && remote.sent == old(remote.sent) + [a.value.0]
    ensures login.Some? ==> buffer[0] == login.value.0
  {
    ghost var r := Recv(remote.incoming, Handshake.HandshakeLength);
    var received := remote.RecvInto(buffer, Handshake.HandshakeLength);
    HandshakeView(buffer[..], r.0);
    var hello := Handshake.Split(buffer[..Handshake.HandshakeLength]);
    var texts := Handshake.DecodeHello(hello);
    if texts.Err? {
      return None, true;
    }
    var attempted, nickname := texts.value.0, texts.value.1;
    var decision := Handshake.Decide(hello.index, pool.entries[..], passwords, attempted);
    remote.Send([ReplyCode(decision)]);
    login, aborted := if decision == Handshake.Accepted then Some((hello.index, nickname)) else None, false;
  }

  // ---------------------------------------------------------------------
  // What the frame loop does.

  /** The stream ending right away: only a stale release code releases. */
  lemma EndOfStream(stale: byte)
    ensures LoopRun([], stale) == LoopTrace([], if stale == CloseConnection then Closed else Spins)
  {
  }

  /** A release frame ends the loop at once, whatever follows it. */
  lemma ReleaseFrame(segments: seq<seq<byte>>, stale: byte)
    requires AllNonEmpty(segments)
    ensures LoopRun([[CloseConnection as byte]] + segments, stale) == LoopTrace([], Closed)
  {
    assert ([[CloseConnection as byte]] + segments)[1..] == segments;
  }

  /** A frame with count n whose n payload bytes arrive whole forwards
      exactly those pairs and goes on with the rest. */
  lemma {:induction false} EventFrame(n: byte, payload: seq<byte>, segments: seq<seq<byte>>, stale: byte)
    requires 0 < n < BufLen && |payload| == n as int && AllNonEmpty(segments)
    ensures LoopRun([[n] + payload] + segments, stale) ==
              LoopTrace([Fixed(payload)] + LoopRun(segments, payload[0]).forwarded, LoopRun(segments, payload[0]).end)
  {
    var segs := [[n] + payload] + segments;
    var (head, rest) := Recv(segs, 1);
    assert head == [n] && rest == [payload] + segments;
    assert Recv(rest, n as int) == (payload, segments);
  }

  /** A count of 0 receives up to the whole buffer, so a frame announcing no
      events still forwards what arrives with it; and when the stream then
      ends on a stale byte below the release code, the loop never ends. */
  lemma ZeroCountFrame()
    ensures LoopRun([[0], [1, 5, 10, 3, 32]], 0) == LoopTrace([[(1, 1), (10, -1)]], Spins)
  {
    var segs: seq<seq<byte>> := [[0], [1, 5, 10, 3, 32]];
    assert Recv(segs, 1) == ([0], [[1, 5, 10, 3, 32]]);
    assert Recv([[1, 5, 10, 3, 32]], BufLen) == ([1, 5, 10, 3, 32], []);
    var c: seq<byte> := [1, 5, 10, 3, 32];
    assert c[2..] == [10, 3, 32] && c[2..][2..] == [32];
    assert Fixed(c) == [(1, 1), (10, -1)];
  }
}
