/** The login handshake both pad servers share (virtualpad/pad_server.py and
    the older virtualpad/server.py): 21 bytes holding the pad index, a 4-byte
    password attempt and a 16-byte nickname, and a fixed order of checks.
    Each server maps the decision to its own reply codes. */
module Handshake {
  import opened Base
  import Pool

  const HandshakeLength := 21
  const PasswordLength := 4
  const NicknameLength := 16
  /** The number of pads a handshake may address. */
  const MaxPadCount := 8

  /** The exceptions a handshake can raise before it answers. */
  datatype Fault = HandshakeIncomplete | UnicodeDecodeError | IndexError

  /** The three fields of a handshake, still as bytes. */
  datatype Hello = Hello(index: byte, attempted: seq<byte>, nickname: seq<byte>)

  predicate WellSized(h: Hello)
  {
    |h.attempted| == PasswordLength && |h.nickname| == NicknameLength
  }

  /** Byte 0 is the index, bytes 1..4 the password attempt, bytes 5..20 the
      nickname; nothing is stripped. */
  function Split(buffer: seq<byte>): (h: Hello)
    requires |buffer| >= HandshakeLength
    ensures WellSized(h)
  {
    Hello(buffer[0], buffer[1..5], buffer[5..21])
  }

  /** The 21 bytes a client sends for a handshake. */
  function Join(h: Hello): (b: seq<byte>)
    requires WellSized(h)
    ensures |b| == HandshakeLength
  {
    [h.index] + h.attempted + h.nickname
  }

  lemma SplitJoin(h: Hello)
    requires WellSized(h)
    ensures Split(Join(h)) == h
  {
    var b := Join(h);
    assert b[1..5] == h.attempted;
    assert b[5..21] == h.nickname;
  }

  lemma JoinSplit(b: seq<byte>)
    requires |b| == HandshakeLength
    ensures Join(Split(b)) == b
  {
    assert b == [b[0]] + b[1..5] + b[5..21];
  }

  /** The handshake's text fields: both must decode as UTF-8. */
  function DecodeHello(h: Hello): (r: Result<(string, string), Fault>)
    ensures r.Ok? <==> ValidUtf8(h.attempted) && ValidUtf8(h.nickname)
    ensures r.Err? ==> r.error == UnicodeDecodeError
    ensures r.Ok? ==> r.value == (DecodeUtf8(h.attempted), DecodeUtf8(h.nickname))
  {
    if !ValidUtf8(h.attempted) || !ValidUtf8(h.nickname) then Err(UnicodeDecodeError)
    else Ok((DecodeUtf8(h.attempted), DecodeUtf8(h.nickname)))
  }

  datatype Decision = InvalidPad | BusyPad | WrongPassword | Accepted

  /** The check order: an index out of range, then an occupied pad, then a
      password mismatch, else success. The pad is busy when the pool holds
      a device for it; its password is a separate per-pad value. */
  function Decide(index: byte, pool: seq<Option<Pool.Entry>>, passwords: seq<string>, attempted: string): (d: Decision)
    requires |pool| == MaxPadCount && |passwords| == MaxPadCount
    ensures d == InvalidPad <==> index >= MaxPadCount
    ensures d == BusyPad <==> index < MaxPadCount && pool[index].Some?
    ensures d == WrongPassword <==> index < MaxPadCount && pool[index].None? && attempted != passwords[index]
    ensures d == Accepted <==> index < MaxPadCount && pool[index].None? && attempted == passwords[index]
  {
    if index >= MaxPadCount then InvalidPad
    else if Pool.AsPair(pool[index]).0.Some? then BusyPad
    else if attempted != passwords[index] then WrongPassword
    else Accepted
  }

  /** The check order as written: the entry `pad_get` returns is a
      (device, nickname) pair, and the password is read from its third
      element, which raises IndexError whenever the pad is free. So the
      written code never accepts a login and never reports a wrong password. */
  function DecideAsWritten(index: byte, pool: seq<Option<Pool.Entry>>): (r: Result<Decision, Fault>)
    requires |pool| == MaxPadCount
    ensures r.Err? <==> index < MaxPadCount && pool[index].None?
    ensures r.Err? ==> r.error == IndexError
    ensures r != Ok(Accepted) && r != Ok(WrongPassword)
  {
    if index >= MaxPadCount then Ok(InvalidPad)
    else
      var entry := Pool.AsPair(pool[index]);
      if entry.0.Some? then Ok(BusyPad)
      else Err(IndexError)
  }

  /** A free pad addressed with its own password: the corrected decision
      accepts, the written one raises. */
  lemma PairEntryDiscrepancy(index: byte, pool: seq<Option<Pool.Entry>>, passwords: seq<string>)
    requires |pool| == MaxPadCount && |passwords| == MaxPadCount
    requires index < MaxPadCount && pool[index].None?
    ensures Decide(index, pool, passwords, passwords[index]) == Accepted
    ensures DecideAsWritten(index, pool) == Err(IndexError)
  {
  }
}
