# virtualpad-server in Dafny

This project models the core of the virtualpad server, which exposes up to
eight virtual gamepads to players on the network. Each piece below is
modelled and its contracts are proved:

- **Slot state machine** (`Slots`, virtualpad/pads/__init__.py). A `PadSlot`
  moves between EMPTY, OCCUPIED and RECENTLY_USED through `occupy`,
  `release(force)` and `heartbeat`. `PadSlots` is the fixed set of slots and
  serialises them for the admin channel.
- **Older pool registry** (`Pool`, virtualpad/pads.py). An eight-entry array
  of optional (device, nickname) entries with `pad_get`, `pad_set`,
  `pad_clear` and `pads_teardown`. It is kept separate from the slots.
- **Handshake** (`Handshake`). Both pad servers share the same 21-byte
  handshake: byte 0 is the pad index, bytes 1–4 the password attempt,
  bytes 5–20 the nickname. They also share the check order: invalid index,
  then busy pad, then wrong password, then success.
- **Pad protocol** (`PadServer`, virtualpad/pad_server.py). The handshake
  answer, the normalisation of (key, state) pairs, and the handler.
  - Setup runs the login and, when it is allowed to, initialises the pad.
  - The frame loop dispatches on the first byte of each read: an event
    count below 18, CLOSE (18) or PING (19).
  - A ping marks the module-wide heartbeat table and leaves the handler's
    own `has_ping` flag untouched, so the two disagree.
  - A short event frame makes the handler write to its read-only stream.
    That raises and ends the session (`LengthMismatch`).
  - The socket is read through a buffered file: a read of 40 bytes returns
    40 while that many remain and fewer only at end of stream. The loop
    skips a receive timeout, but the read after it raises, since the file
    refuses every read once one has timed out, so a timeout ends the
    session too (`ReadAfterTimeout`). Every session therefore ends.
- **Older pad protocol** (`LegacyServer`, virtualpad/server.py).
  - The connection is one thread over a 32-byte buffer. The peer's data is
    a list of segments; `recv_into` takes at most the requested number of
    bytes, or up to the whole buffer when asked for 0.
  - The termination code equals the success code.
  - A frame count of 0 reads up to a whole buffer.
  - At end of stream the loop either releases the pad (when the stale
    first byte is the release code) or repeats forever (`Spins`).
- **Event translation** (`Devices`, virtualpad/pads/devices.py). `emit`
  turns (key, value) pairs into emissions on a device, which is modelled as
  an emission log.
  - Buttons 0–9 give a scan code and a button state.
  - D-pad keys 10–13 are folded into the X/Y axes unless the axis was sent
    explicitly.
  - Axes 14–17 are clamped to 0–255.
  - A D-pad value outside the two-element pick list raises, and so does a
    key past the four axes. The exception is swallowed, so the batch is then
    never synchronised.
- **Admin dispatch** (`MainServer`, virtualpad/main_server.py). One JSON
  command line gives at most one response record and one notification.
  - The only state is whether the pad server runs.
  - Launching and stopping the pad server, releasing slots and the password
    store are calls outside the model. Each completed call is recorded as an
    effect, and whether it raises is an input.
  - Every exception is swallowed, and the handler then answers nothing.
- **Connection numbering** (`BaseServer`, virtualpad/base_server.py). A
  registry of counters keyed by handler class and server, with the
  handler's `setup` taking the next number and a server's `server_close`
  forgetting its counter.

Names of shared vocabulary live in `Base`: bytes, `Option`, `Result`, the
decimal rendering of integers, and strict UTF-8 well-formedness and
decoding (the byte syntax of section 4 of RFC 3629), with the encoder of
section 3 of RFC 3629 as the decoder's partner: the two are inverse on
every text and every well-formed byte sequence.

## Model

| member | source | states |
|---|---|---|
| Base.Digits | virtualpad/pads.py:85 | the decimal rendering of an index used in device names is a non-empty run of digits whose value is the index, with no leading zero except for 0 itself |
| Base.ValidUtf8 | virtualpad/pad_server.py:50-51 | ASCII bytes are always well-formed UTF-8 |
| Base.DecodeUtf8 | virtualpad/pad_server.py:50-51 | decoding yields at most one character per byte, and nothing exactly for no bytes |
| Base.DecodeFirst | virtualpad/pad_server.py:50-51 | the decoded text starts with the code point of the first sequence |
| Base.SequenceLength | virtualpad/pad_server.py:50-51 | a well-formed UTF-8 sequence never overruns the input, and an ASCII byte is a sequence of one |
| Base.CodePoint | virtualpad/pad_server.py:50-51 | a decoded code point is a Unicode scalar value, and an ASCII byte decodes to itself |
| Base.AsciiDecodes | virtualpad/pad_server.py:50-51 | ASCII bytes always decode, one character per byte with the byte's value |
| Base.AsciiBytes | virtualpad/pad_server.py:50-51 | the ASCII encoding of a text below 0x80 has one ASCII byte per character |
| Base.AsciiRoundTrip | virtualpad/pad_server.py:50-51 | decoding the ASCII encoding of such a text gives the text back |
| Base.EncodeScalar | virtualpad/pad_server.py:50-51 | a scalar value encodes to one to four bytes, a single ASCII byte exactly for values below 0x80 |
| Base.ScalarDecodes | virtualpad/pad_server.py:50-51 | the encoding of a scalar value is one well-formed sequence, whatever follows it, and it decodes back to the value |
| Base.SequenceEncodes | virtualpad/pad_server.py:50-51 | every well-formed sequence is the encoding of the code point it decodes to, so each scalar value has one spelling |
| Base.EncodeUtf8 | virtualpad/pad_server.py:50-51 | a text encodes to between one and four bytes per character |
| Base.EncodeDecodes | virtualpad/pad_server.py:50-51 | every text's UTF-8 encoding is well-formed and decodes to the text |
| Base.DecodeEncodes | virtualpad/pad_server.py:50-51 | every well-formed input, such as a 16-byte nickname, is the encoding of what it decodes to, so decoding loses no information |
| Base.Zeros | virtualpad/server.py:66 | a fresh buffer holds n zero bytes |
| Pool.CheckIndex | virtualpad/pads.py:57-59 | no error exactly for indices 0..7; otherwise PadIndexOutOfRange with the index |
| Pool.Occupants | virtualpad/pads.py:106-109 | the devices of occupied entries in index order, never more than the entries |
| Pool.PadPool.constructor | virtualpad/pads.py:31 | the pool has eight entries, all empty |
| Pool.PadPool.Get | virtualpad/pads.py:62-70 | an out-of-range index raises; an occupied entry gives its (device, nickname), an empty one (None, None); the pool is read only |
| Pool.PadPool.Set | virtualpad/pads.py:73-85 | out of range or occupied raises with the pool unchanged; an empty entry gets a device named `<name>-<index>` and the nickname, and no other entry changes |
| Pool.PadPool.Clear | virtualpad/pads.py:88-98 | out of range or empty raises with the pool unchanged; an occupied entry becomes empty and nothing else changes |
| Pool.PadPool.Teardown | virtualpad/pads.py:101-109 | every entry ends empty, and the devices destroyed are the occupants in index order |
| Pool.SetThenClear | virtualpad/pads.py:73-98 | after setting an empty entry, `pad_get` returns the new pair, and clearing it restores the pool |
| Pool.OccupantsCount | virtualpad/pads.py:101-109 | teardown destroys exactly one device per occupied entry |
| Devices.Device.Make | virtualpad/pads/devices.py:30-56 | a new device has the given name and has logged the four centred axes and one sync |
| Devices.EmitOne | virtualpad/pads/devices.py:136-137 | one unsynchronised value is appended to the log |
| Devices.Clamp | virtualpad/pads/devices.py:119 | the value is forced into 0..255, unchanged inside it |
| Devices.StepState | virtualpad/pads/devices.py:97-119 | once raised the loop state stays, and it raises exactly when it had or the event raises |
| Devices.StepEmits | virtualpad/pads/devices.py:97-119 | a step only adds emissions, exactly the event's own when nothing raises |
| Devices.RunFrom | virtualpad/pads/devices.py:97-119 | a raised loop stays as it is, and the emissions only grow over the events |
| Devices.Translate | virtualpad/pads/devices.py:73-133 | a raising batch is exactly the loop's emissions; otherwise the loop's emissions, then at most two D-pad settlements, then a closing sync |
| Devices.LoopEmissionsInOrder | virtualpad/pads/devices.py:97-119 | a batch with no raising event emits, in input order, scan code then state for each button, the clamped value for each axis, and nothing for D-pad keys |
| Devices.MixedBatch | virtualpad/pads/devices.py:73-133 | an out-of-range axis followed by a pressed button gives the clamped axis 255, the button's scan code and state, and the sync |
| Devices.Emit | virtualpad/pads/devices.py:73-133 | the device log grows by exactly the translation of the events |
| Devices.EmitZero | virtualpad/pads/devices.py:59-70 | the log grows by the translation of the fourteen released buttons and four centred axes |
| Devices.RaisedSticks | virtualpad/pads/devices.py:97-111 | once an event has raised, the later events change nothing |
| Devices.RunFromAppend | virtualpad/pads/devices.py:97-119 | the loop over a concatenation is the loop over each part in turn |
| Devices.RaisedIffSomeEventRaises | virtualpad/pads/devices.py:104-111 | the loop raises exactly when some event raises: a D-pad value outside the two-element pick list, or a key past the four axes |
| Devices.LoopEmitsNoSync | virtualpad/pads/devices.py:97-119 | the loop only emits values, never a sync |
| Devices.SyncIffNoEventRaises | virtualpad/pads/devices.py:124-133 | the batch ends with exactly one sync when no event raised, and has none otherwise |
| Devices.ButtonsInOrder | virtualpad/pads/devices.py:98-101 | each button 0..9 emits its scan code 0x90001+key and then (0x01, 0x120+key) with 1 for a non-zero value, in input order |
| Devices.ForcedIffAxisSent | virtualpad/pads/devices.py:112-118 | an axis is forced exactly when its explicit axis key was sent |
| Devices.PendingChanges | virtualpad/pads/devices.py:102-111 | an axis has pending D-pad changes exactly when one of its two D-pad keys was sent, and these record which directions were pressed |
| Devices.DpadSettles | virtualpad/pads/devices.py:124-130 | a forced axis or one without D-pad keys gets nothing; otherwise it gets the single held direction or the centre 127 |
| Devices.ZeroTranslation | virtualpad/pads/devices.py:59-70 | `emit_zero` sends 25 emissions: ten released buttons with their scan codes, four centred axes, then one sync |
| Devices.ZeroRun | virtualpad/pads/devices.py:69-70 | the loop of `emit_zero` emits the buttons, then the four centred axes, and forces both D-pad axes |
| Devices.ZeroDpad | virtualpad/pads/devices.py:102-111 | released D-pad keys emit nothing in the loop and do not raise |
| Devices.ZeroAxes | virtualpad/pads/devices.py:112-119 | the four centred axes are emitted in order and force both D-pad axes |
| Slots.PadSlot.constructor | virtualpad/pads/__init__.py:26-39 | a fresh slot is EMPTY with nickname "", connection -1, no device and no stamp |
| Slots.PadSlot.Occupy | virtualpad/pads/__init__.py:57-71 | OCCUPIED raises PadInUse and changes nothing; otherwise the slot becomes OCCUPIED with the nickname and connection, keeps an existing device and makes one only if none exists |
| Slots.PadSlot.Release | virtualpad/pads/__init__.py:73-95 | forced: EMPTY raises; otherwise the slot becomes EMPTY with everything cleared. Unforced: anything but OCCUPIED raises; otherwise RECENTLY_USED, stamped now, keeping the device |
| Slots.PadSlot.HeartbeatAsWritten | virtualpad/pads/__init__.py:97-110 | as written, the heartbeat raises on every RECENTLY_USED slot and never returns True |
| Slots.PadSlot.Heartbeat | virtualpad/pads/__init__.py:97-110 | true exactly for a RECENTLY_USED slot whose stamp lies beyond the timeout; that slot becomes EMPTY without stamp or device; otherwise nothing changes |
| Slots.HeartbeatDiscrepancy | virtualpad/pads/__init__.py:104-105 | a slot due for release makes the intended heartbeat fire and the written one raise |
| Slots.PadSlot.EmitAsWritten | virtualpad/pads/__init__.py:112-122 | as written, `emit` always raises: PadNotInUse off OCCUPIED, a TypeError on it |
| Slots.PadSlot.Emit | virtualpad/pads/__init__.py:112-122 | off OCCUPIED it raises PadNotInUse and the device log is untouched; on OCCUPIED the slot's device logs the translation |
| Slots.PadSlot.Serialize | virtualpad/pads/__init__.py:124-134 | OCCUPIED gives ("occupied", nick), RECENTLY_USED ("recently-used", ""), EMPTY ("empty", "") |
| Slots.PadSlots.constructor | virtualpad/pads/__init__.py:142-143 | one fresh EMPTY slot per configured index, in index order |
| Slots.PadSlots.Serialize | virtualpad/pads/__init__.py:145-151 | one entry per slot, in slot order, each that slot's serialisation |
| Handshake.Split | virtualpad/pad_server.py:49-51 | byte 0, bytes 1..4 and bytes 5..20 become a well-sized index, attempt and nickname |
| Handshake.Join | virtualpad/pad_server.py:45-51 | a well-sized handshake is 21 bytes |
| Handshake.SplitJoin | virtualpad/pad_server.py:49-51 | splitting the bytes of a handshake gives the handshake back |
| Handshake.JoinSplit | virtualpad/pad_server.py:49-51 | joining the fields of 21 bytes gives the bytes back |
| Handshake.DecodeHello | virtualpad/pad_server.py:50-51 | decoding fails with UnicodeDecodeError exactly when one of the two fields is not UTF-8 |
| Handshake.Decide | virtualpad/pad_server.py:53-64 | invalid iff index ≥ 8; busy iff the pad holds a device; wrong password iff free and the attempt differs; accepted iff free and equal |
| Handshake.DecideAsWritten | virtualpad/pad_server.py:56-62 | as written, a free pad raises IndexError, so no login is ever accepted or refused for its password |
| Handshake.PairEntryDiscrepancy | virtualpad/server.py:77-84 | a free pad with its own password: accepted as intended, IndexError as written |
| PadServer.ReplyCode | virtualpad/pad_server.py:19-24 | the answer is LOGIN_SUCCESS (0) exactly for an accepted login |
| PadServer.ReplyCodesDistinct | virtualpad/pad_server.py:19-22 | different decisions are answered with different codes |
| PadServer.PadAuth | virtualpad/pad_server.py:38-64 | fewer than 21 bytes raise; undecodable text raises; otherwise one code of the decision is answered, and success carries a free pad's index with a matching password and the decoded nickname, failure carries (None, None) |
| PadServer.LoginWithPassword | virtualpad/pad_server.py:38-64 | a free pad's index, its ASCII password and an ASCII nickname log in with that nickname |
| PadServer.Normalize | virtualpad/pad_server.py:138-146 | the key is kept; keys below 14 get 0 for 0 and 1 otherwise; other keys keep their state |
| PadServer.Normalized | virtualpad/pad_server.py:137-146 | one normalised event per pair, in payload order |
| PadServer.Reads | virtualpad/pad_server.py:159-165 | there is always a read, and the last one is the empty read exactly when the peer closed and the timeout exactly when it fell silent |
| PadServer.ReadsShape | virtualpad/pad_server.py:163 | every read before the last returns data of at most 40 bytes, all of exactly 40 but the one before a closing empty read |
| PadServer.ReadsReceive | virtualpad/pad_server.py:163 | when the peer closes, the reads return the whole stream in order |
| PadServer.ReadsReceiveSilent | virtualpad/pad_server.py:159-165 | when the peer falls silent, the reads return the start of the stream in order, and fewer than 40 bytes stay unread |
| PadServer.FrameStep | virtualpad/pad_server.py:161-182 | a timeout stops at the read after it, an empty read closes, 18 closes by request, 19 pings, a short event frame stops with a length mismatch, a whole one forwards its pairs, and anything else is skipped |
| PadServer.HandleRun | virtualpad/pad_server.py:158-187 | a session never ends for lack of a device once running, forwards at most one batch per read, and every forwarded button is 0 or 1 |
| PadServer.HandleRunAppend | virtualpad/pad_server.py:161-182 | a session whose reads run out continues unchanged with further reads: batches concatenate and pings accumulate |
| PadServer.StopEndsRun | virtualpad/pad_server.py:161-182 | reads whose last one stops the loop never run out |
| PadServer.SessionEnds | virtualpad/pad_server.py:158-187 | every session over a socket ends by the peer closing, a close frame, a short frame or the read after a timeout |
| PadServer.Frame | virtualpad/pad_server.py:163 | a client frame is one whole read, starting with the bytes it means |
| PadServer.ReadsFrame | virtualpad/pad_server.py:163 | a whole frame at the head of the stream is returned by the first read |
| PadServer.LastFrame | virtualpad/pad_server.py:163 | one whole frame before a close is read as itself and then the empty read |
| PadServer.FourFrames | virtualpad/pad_server.py:163 | four whole frames and a close are read as four frames and an empty read |
| PadServer.SessionScenario | virtualpad/pad_server.py:161-182 | whole frames with a ping, a press, a release and a close give two batches, a ping and a requested close |
| PadServer.FramesScenario | virtualpad/pad_server.py:161-182 | the frame loop over those reads ignores the zero fill after each payload |
| PadServer.ScenarioSteps | virtualpad/pad_server.py:161-182 | read by read: a frame starting 19 is a ping, one starting 1, 8, 7 presses button 8 (a non-zero value counts as 1), one starting 1, 8, 0 releases it, and one starting 18 asks to close, whatever zero fill follows |
| PadServer.SilentScenario | virtualpad/pad_server.py:159-165 | a ping followed by silence still counts the ping, and the session ends at the read after the timeout |
| PadServer.TruncatedScenario | virtualpad/pad_server.py:166-172 | an event frame cut short by the peer closing is a length mismatch |
| PadServer.InitsPadAsWritten | virtualpad/pad_server.py:155 | as written, the pad is initialised after a login exactly when the intended test passes and the index is not 0 |
| PadServer.InitsPad | virtualpad/pad_server.py:155 | as intended, the pad is initialised after every successful login, index 0 included |
| PadServer.PadZeroNeverInitialised | virtualpad/pad_server.py:151-156 | a successful login to pad 0 is initialised as intended but not as written |
| PadServer.PadHandler.constructor | virtualpad/pad_server.py:69-76 | a new handler has no ping, no index, no nickname and no device |
| PadServer.PadHandler.ProcessEvents | virtualpad/pad_server.py:127-149 | without a device nothing is forwarded; an odd-length payload fails to unpack; otherwise each pair is forwarded normalised, count and order kept |
| PadServer.PadHandler.Setup | virtualpad/pad_server.py:151-156 | a raising handshake answers nothing; otherwise its code is answered, and a success records index and nickname, fills that pool entry, announces it and takes the device; nothing else changes |
| PadServer.PadHandler.ReadFrame | virtualpad/pad_server.py:161-182 | one read is dispatched as the frame step says |
| PadServer.PadHandler.Frames | virtualpad/pad_server.py:159-182 | the batches and ending are the session's; a ping marks the pad's heartbeat entry and nothing else |
| PadServer.PadHandler.Handle | virtualpad/pad_server.py:158-187 | without a device nothing happens; otherwise the session runs over the socket's reads and always ends, a close request clears the pool entry, the handler's own ping flag is untouched, and the device is dropped however it ends |
| LegacyServer.ReplyCode | virtualpad/server.py:15-19 | an accepted login is answered with 2, which is also the termination code |
| LegacyServer.Recv | virtualpad/server.py:94-97 | one receive takes at most n bytes, none only at end of stream, and what stays queued holds the remaining count |
| LegacyServer.RecvKeepsStream | virtualpad/server.py:94-97 | the bytes received are the first min(n, size) bytes of the head segment, and they followed by what stays queued are exactly the queued bytes before |
| LegacyServer.Flatten | virtualpad/server.py:94-97 | the bytes still to be received, as many as the segments hold |
| LegacyServer.Socket.RecvInto | virtualpad/server.py:94-97 | the received bytes overwrite the buffer's start, the rest of the buffer keeps its bytes, and the count is returned |
| LegacyServer.Socket.Send | virtualpad/server.py:75-84 | the bytes are appended to what was sent |
| LegacyServer.Socket.Close | virtualpad/server.py:116-117 | the socket is closed and nothing else changes |
| LegacyServer.FixAsWritten | virtualpad/server.py:36-43 | as written, keys 10 and 11 are never sent centred; keys 12 and above are dropped |
| LegacyServer.Fix | virtualpad/server.py:36-43 | buttons 0..9 get 0 or 1, axis keys 10 and 11 get 0, 1 or -1 for 0, 1 or ≥2, other keys are dropped |
| LegacyServer.CentredAxisDiscrepancy | virtualpad/server.py:38-40 | a centred axis key is sent as 1 as written and as 0 as intended |
| LegacyServer.Fixed | virtualpad/server.py:31-43 | at most one event per pair, each with a known key |
| LegacyServer.FixedAppend | virtualpad/server.py:36-43 | payloads split on a pair boundary are forwarded piece by piece, order kept |
| LegacyServer.ProcessEvents | virtualpad/server.py:22-46 | the forwarded events are those of the first `length` bytes, a trailing odd byte dropped |
| LegacyServer.Step | virtualpad/server.py:92-102 | one loop turn either finishes, released or spinning, or consumes input and forwards at most one batch |
| LegacyServer.LoopRun | virtualpad/server.py:92-102 | the frame loop terminates on the remaining bytes and either releases or spins |
| LegacyServer.FrameLoop | virtualpad/server.py:92-102 | the forwarded batches and ending are the loop's; a release empties the pad's pool entry; nothing is sent |
| LegacyServer.ReadFrame | virtualpad/server.py:94-102 | one turn of the loop on the socket agrees with the loop step |
| LegacyServer.Auth | virtualpad/server.py:69-84 | over the zero-padded bytes received: a decoding failure raises, otherwise the decision's code is answered, and the login exists exactly when accepted |
| LegacyServer.Run | virtualpad/server.py:54-117 | at most one code is sent; a login happens exactly when the success code is sent and then names a free pad; without a login nothing is forwarded |
| LegacyServer.Login | virtualpad/server.py:66-84 | the handshake part of the connection agrees with the handshake function and answers at most one code |
| LegacyServer.PadLoop | virtualpad/server.py:54-117 | the connection sends the session's reply, forwards its batches, fills the pool entry of a login (empty again after a release) and closes the socket in `finally` on every ending except a loop spinning at the end of the stream, which never gets there and leaves it open |
| LegacyServer.EndOfStream | virtualpad/server.py:94-95 | with nothing left to receive, only a stale release code ends the loop |
| LegacyServer.ReleaseFrame | virtualpad/server.py:99-101 | a release frame ends the loop at once whatever follows |
| LegacyServer.EventFrame | virtualpad/server.py:96-98 | a frame with count n whose n bytes arrive whole forwards exactly those pairs |
| LegacyServer.ZeroCountFrame | virtualpad/server.py:96-98 | a count of 0 still forwards the bytes that arrive with it, and the loop then spins |
| MainServer.Lookup | virtualpad/main_server.py:60 | a key is found exactly when some member has it, and the value found is that of the last member with the key |
| MainServer.LastAt | virtualpad/main_server.py:60 | the position of the last member with the key, or the number of members when none has it |
| MainServer.First | virtualpad/main_server.py:97 | the position of the first member with the key, or the number of members when none has it |
| MainServer.Keys | virtualpad/main_server.py:97 | the keys of an object are listed once each, every member's key is among them, and they come in order of first appearance |
| MainServer.InPadRangeIsMembership | virtualpad/main_server.py:81 | `index in range(8)` holds exactly when the index equals one of 0..7 under Python's equality |
| MainServer.Spread | virtualpad/main_server.py:97 | a missing value spreads to no arguments, a list to its items, and anything but a list, string or object raises |
| MainServer.SlotsJson | virtualpad/main_server.py:65 | one [status, nickname] list per slot, in slot order |
| MainServer.Dispatch | virtualpad/main_server.py:50-104 | a non-object line answers nothing; only start (from stopped) and stop (from running) change the flag; a silent outcome changes neither flag nor notifications |
| MainServer.MainServerState.constructor | virtualpad/main_server.py:21-23 | a fresh state holds no pad server |
| MainServer.MainServerState.Handle | virtualpad/main_server.py:50-104 | the new flag, response, effects and notifications are the dispatch's over the current slots |
| MainServer.StartIsIdempotent | virtualpad/main_server.py:62-67 | starting a stopped server launches it and answers with the slots; starting again answers "already running" and changes nothing |
| MainServer.StopAfterStart | virtualpad/main_server.py:62-74 | stopping a started server shuts it down; stopping a stopped one answers "not running" and changes nothing |
| MainServer.IsRunningReports | virtualpad/main_server.py:75-77 | the answer's value is the flag and nothing changes |
| MainServer.ClearReleasesValidIndex | virtualpad/main_server.py:78-86 | a slot is released exactly when the index is in range, answering "pad:ok"; otherwise "pad:invalid-index" and nothing is released |
| MainServer.StatusReports | virtualpad/main_server.py:91-95 | `pad:status` answers the serialised slots and the passwords unless reading them raises, and changes nothing |
| MainServer.ClearAllReleases | virtualpad/main_server.py:87-90 | `pad:clear-all` releases every slot, answers "pad:ok" and broadcasts "pad:all-cleared"; a raising release does nothing |
| MainServer.ResetRegenerates | virtualpad/main_server.py:96-100 | `pad:reset-passwords` regenerates the spread indices and answers "ok" with the passwords; an unspreadable value or a raising regeneration does nothing, and a raising read keeps the regeneration but answers nothing |
| MainServer.ResetWithoutIndices | virtualpad/main_server.py:97 | without `indices` every password is regenerated, with no arguments |
| MainServer.UnknownCommandEchoes | virtualpad/main_server.py:101-102 | an unknown command is echoed back and has no effect |
| MainServer.MissingCommand | virtualpad/main_server.py:60-102 | an object without a command is answered as an unknown null command |
| MainServer.BooleanIndexAccepted | virtualpad/main_server.py:79-82 | a boolean index passes the range check and is released |
| BaseServer.Bump | virtualpad/base_server.py:8-11 | the pair's counter grows by one and every other pair's stays |
| BaseServer.Drop | virtualpad/base_server.py:14-15 | the pair's counter returns to 0, every other pair's stays, and the class entry remains |
| BaseServer.Issue | virtualpad/base_server.py:8-11 | one number per connection |
| BaseServer.IssueCounts | virtualpad/base_server.py:8-11 | after a run of connections each pair's counter grew by its number of connections |
| BaseServer.IssueAt | virtualpad/base_server.py:8-11 | a connection's number is its pair's starting counter plus the earlier connections of the pair |
| BaseServer.IssueDistinct | virtualpad/base_server.py:8-11 | connections of the same pair get strictly increasing numbers, counting from 0 in a fresh registry |
| BaseServer.IssueOne | virtualpad/base_server.py:8-11 | a single connection gets the pair's counter and bumps it |
| BaseServer.SuccessiveIndices | virtualpad/base_server.py:8-11 | the first number of a fresh pair is 0, and two connections in a row get consecutive numbers |
| BaseServer.DropRestarts | virtualpad/base_server.py:8-15 | after popping a server, its next connection gets 0 |
| BaseServer.IndexRegistry.constructor | virtualpad/base_server.py:5 | the registry starts empty |
| BaseServer.IndexRegistry.NextIndex | virtualpad/base_server.py:8-11 | returns the pair's counter and increments it |
| BaseServer.IndexRegistry.PopServer | virtualpad/base_server.py:14-15 | forgets the server's counter for the class; a missing class or server changes nothing |
| BaseServer.IndexedHandler.constructor | virtualpad/base_server.py:23-25 | a new handler has no index |
| BaseServer.IndexedHandler.Setup | virtualpad/base_server.py:31-32 | the handler's index is the next number of its class and server |

## Left out

- uinput devices are not modelled as hardware. A `Devices.Device` is a name and an emission log, and a pool device is a name.
- Sockets and threads are not modelled as such. This covers the accept loop, `launch_*`, the heartbeat thread of the pad server (it sleeps and reads a flag) and the broadcast server. A broadcast is recorded as a notice or notification.
- JSON text is not modelled. Decoding is an input (`MainServer.Line`), and encoding of responses is left out; responses are records.
- Logging and the clock are not modelled. Time is an integer parameter.
- Passwords are given: eight strings, or a JSON value for the admin channel. virtualpad/pads/settings.py does not define the `passwords_get` and `passwords_regenerate` that the admin channel imports, so those calls are abstract.
- `virtualpad.pads` names the package virtualpad/pads/, whose `__init__.py` exports neither `pad_send_all` nor `PadMismatch`, nor `pad_get`, `pad_set`, `pad_clear` or `MAX_PAD_COUNT`. So the imports of virtualpad/pad_server.py and virtualpad/server.py fail as written; the model takes the pool functions from virtualpad/pads.py.
  - `PadMismatch` is defined in virtualpad/pads/exceptions.py:24, but nothing shown raises it. The PadMismatch path, which sends TERMINATED in virtualpad/server.py, is not part of this model.
  - `pad_send_all` is defined nowhere shown. Forwarding is recorded as batches instead of calling a pool function.
  - `MAX_PAD_COUNT` is defined nowhere shown. It is taken as 8, the pool size.
- `PadSlots` in virtualpad/pads/__init__.py has no `release` or `release_all`, though the admin channel calls both. As written, `pad:clear` with a valid index and `pad:clear-all` therefore always raise and answer nothing. The model keeps these calls abstract, and whether they raise is an input.
- The construction order of socketserver handlers is not modelled.
  - `BaseRequestHandler.__init__` runs setup, handle and finish before the subclass constructors assign their fields.
  - `IndexedHandler.setup` does not call the stream handler's setup, so `rfile`/`wfile` would not exist.
  - The model runs setup and handle on a constructed handler.
- PadServer.PadHandler.Setup: the device is read from the pool entry as a pair. As written, `device, _, _ = entry` would raise on the two-element entry. This is the same pair mismatch as the password finding, and the model uses the intended reading.
- PadServer.Reads: a timeout with fewer than 40 bytes buffered drops those bytes; the session ends at the next read anyway, so nothing observable depends on them.
- LegacyServer.ProcessEvents: runs on the corrected `Fix`, so the pair (10, 0) is forwarded as (10, 0), where virtualpad/server.py:40 as written gives (10, 1). LegacyServer.Step, LoopRun, FrameLoop, ReadFrame, Run and PadLoop inherit it through `Fixed`; `FixAsWritten` keeps the written map.
- PadServer.PadHandler.Setup: initialises through the corrected `InitsPad`, so pad 0 gets its device, which virtualpad/pad_server.py:155 as written never does; `InitsPadAsWritten` keeps the written test.
- LegacyServer.LoopRun: a loop that spins forever at end of stream is reported as the ending `Spins`, not as a computation that does not terminate. `PadLoop` then returns with the socket still open, as the thread that never leaves the loop leaves it.
- LegacyServer.PadLoop: the heartbeat thread is not started, because its body is empty in the source.
- LegacyServer.PadLoop: the pad initialisation reads the pool entry as the pair it is. As written, `device, nickname, _ = entry` at virtualpad/server.py:89 would raise ValueError on the two-element entry after every successful login, so the frame loop would never run; the model uses the intended reading, as for the password check at virtualpad/server.py:81.
- MainServer.Dispatch: `_STATES[self.server]` raising for an unactivated server is not modelled, and neither are writes on a broken connection. Both sit outside the swallowed region or are I/O. Server activation (`server_activate`, which launches the pad server and runs `chgrp`/`chmod`) is left out as well, so a fresh state has no pad server running.
- MainServer.Json: numbers with a fraction keep only the integer they equal, if any. That is all `in range(8)` can observe.

## Findings

| source | as written | input that shows it | evidently intended | confidence | as-written member | corrected member |
|---|---|---|---|---|---|---|
| virtualpad/pads/__init__.py:105 | the elapsed time subtracts `_status` from the clock, which raises TypeError | any RECENTLY_USED slot at heartbeat time | subtract `_last_user_stamp` and release the slot after the timeout | not executed | Slots.PadSlot.HeartbeatAsWritten | Slots.PadSlot.Heartbeat |
| virtualpad/pads/__init__.py:122 | `emit(events)` omits the device argument, so it raises TypeError | any OCCUPIED slot emitting any events | emit the events on the slot's own device | not executed | Slots.PadSlot.EmitAsWritten | Slots.PadSlot.Emit |
| virtualpad/pad_server.py:60 | the password is read from `entry[2]` of the (device, nickname) pair `pad_get` returns, which raises IndexError (also virtualpad/server.py:81) | index 0 on a free pad with its correct password | compare the attempt with the pad's own password | not executed | Handshake.DecideAsWritten | Handshake.Decide |
| virtualpad/pad_server.py:155 | `if self._pad_index:` is false for index 0, so pad 0 never gets its device | a successful login to pad 0 | initialise after every successful login | not executed | PadServer.InitsPadAsWritten | PadServer.InitsPad |
| virtualpad/server.py:40 | `-1 if state >= 2 else 1` turns a centred D-pad axis (state 0) into 1 | the pair (10, 0) | 0 → 0, 1 → 1, ≥2 → -1, as the comment on line 39 says | not executed | LegacyServer.FixAsWritten | LegacyServer.Fix |
