/** The admin channel of virtualpad/main_server.py: one JSON command line in,
    at most one response record out, plus the flag saying whether the pad
    server runs. Launching and stopping the pad server, releasing slots and
    the password store are calls outside this model: each is recorded as an
    effect, and whether it raises is given. Any exception inside the command
    processing is swallowed, so the handler then answers nothing. */
module MainServer {
  import opened Base
  import Slots

  /** A decoded JSON value. Objects keep their members in text order; a
      number with a fraction is kept only as the integer it equals, if any. */
  datatype Json =
    | JNull
    | JBool(b: bool)
    | JInt(i: int)
    | JReal(whole: Option<int>)
    | JStr(s: string)
    | JList(items: seq<Json>)
    | JObject(members: seq<(string, Json)>)

  /** What the handler read: end of input, a line that is not UTF-8 JSON,
      or a decoded value. */
  datatype Line = EndOfInput | Malformed | Parsed(payload: Json)

  /** `dict.get`: the value of the last member with the key (a JSON decoder
      keeps the last of duplicated keys). */
  function Lookup(members: seq<(string, Json)>, key: string): (r: Option<Json>)
    ensures r.Some? <==> exists k :: 0 <= k < |members| && members[k].0 == key
    ensures r.None? <==> LastAt(members, key) == |members|
    ensures r.Some? ==> members[LastAt(members, key)] == (key, r.value)
  {
    if members == [] then None
    else if members[|members| - 1].0 == key then Some(members[|members| - 1].1)
    else
      var front := members[..|members| - 1];
      assert forall k :: 0 <= k < |front| ==> front[k] == members[k];
      Lookup(front, key)
  }

  /** The position of the last member with the key, or the number of
      members when there is none. */
  function LastAt(members: seq<(string, Json)>, key: string): (r: nat)
    ensures r <= |members|
    ensures r < |members| ==> members[r].0 == key && forall j :: r < j < |members| ==> members[j].0 != key
    ensures r == |members| ==> forall j :: 0 <= j < |members| ==> members[j].0 != key
    decreases |members|
  {
    if members == [] then 0
    else
      var n := |members| - 1;
      if members[n].0 == key then n
      else
        var front := members[..n];
        assert forall j :: 0 <= j < n ==> front[j] == members[j];
        var l := LastAt(front, key);
        if l < n then l else n + 1
  }

  /** The position of the first member with the key, or the number of
      members when there is none. */
  function First(members: seq<(string, Json)>, key: string): (r: nat)
    ensures r <= |members|
    ensures r < |members| ==> members[r].0 == key
    ensures forall j :: 0 <= j < r ==> members[j].0 != key
    decreases |members|
  {
    if members == [] then 0
    else
      var n := |members| - 1;
      var front := members[..n];
      assert forall j :: 0 <= j < n ==> front[j] == members[j];
      var f := First(front, key);
      if f < n then f else if members[n].0 == key then n else n + 1
  }

  function GetOrNull(members: seq<(string, Json)>, key: string): Json
  {
    match Lookup(members, key)
    case Some(v) => v
    case None => JNull
  }

  /** The distinct keys of an object, in order of first appearance. */
  function Keys(members: seq<(string, Json)>): (r: seq<string>)
    ensures forall k :: 0 <= k < |r| ==> First(members, r[k]) < |members|
    ensures forall j :: 0 <= j < |members| ==> members[j].0 in r
    ensures forall k, l :: 0 <= k < l < |r| ==> First(members, r[k]) < First(members, r[l])
    decreases |members|
  {
    if members == [] then []
    else
      var n := |members| - 1;
      var front := Keys(members[..n]);
      var key := members[n].0;
      KeysBoundExtend(members, members[..n], front);
      KeysCompleteExtend(members, members[..n], front);
      KeysOrderExtend(members, members[..n], front);
      if key in front then front else front + [key]
  }

  /** The step of `Keys`: every key listed keeps a first position. */
  lemma {:induction false} KeysBoundExtend(members: seq<(string, Json)>, prior: seq<(string, Json)>, front: seq<string>)
    requires members != [] && prior == members[..|members| - 1]
    requires forall k :: 0 <= k < |front| ==> First(prior, front[k]) < |prior|
    ensures var key := members[|members| - 1].0;
            var r := if key in front then front else front + [key];
            forall k :: 0 <= k < |r| ==> First(members, r[k]) < |members|
  {
    var key := members[|prior|].0;
    forall k | 0 <= k < |front|
      ensures First(members, front[k]) < |members|
    {
      FirstExtend(members, prior, front[k]);
    }
    if key !in front {
      var r := front + [key];
      FirstExtend(members, prior, key);
      forall k | 0 <= k < |r| ensures First(members, r[k]) < |members| {
        if k < |front| { assert r[k] == front[k]; }
      }
    }
  }

  /** The step of `Keys`: every member's key is listed. */
  lemma {:induction false} KeysCompleteExtend(members: seq<(string, Json)>, prior: seq<(string, Json)>, front: seq<string>)
    requires members != [] && prior == members[..|members| - 1]
    requires forall j :: 0 <= j < |prior| ==> prior[j].0 in front
    ensures var key := members[|members| - 1].0;
            var r := if key in front then front else front + [key];
            forall j :: 0 <= j < |members| ==> members[j].0 in r
  {
    forall j | 0 <= j < |prior| ensures members[j].0 in front {
      assert members[j] == prior[j];
    }
  }

  /** The order half of the step of `Keys`: a new last key comes after
      every key already listed. */
  lemma {:induction false} KeysOrderExtend(members: seq<(string, Json)>, prior: seq<(string, Json)>, front: seq<string>)
    requires members != [] && prior == members[..|members| - 1]
    requires forall k :: 0 <= k < |front| ==> First(prior, front[k]) < |prior|
    requires forall j :: 0 <= j < |prior| ==> prior[j].0 in front
    requires forall k, l :: 0 <= k < l < |front| ==> First(prior, front[k]) < First(prior, front[l])
    ensures var key := members[|members| - 1].0;
            var r := if key in front then front else front + [key];
            forall k, l :: 0 <= k < l < |r| ==> First(members, r[k]) < First(members, r[l])
  {
    var n := |prior|;
    var key := members[n].0;
    forall k | 0 <= k < |front|
      ensures First(members, front[k]) == First(prior, front[k])
    {
      FirstExtend(members, prior, front[k]);
    }
    FirstExtend(members, prior, key);
    if First(prior, key) < n {
      assert prior[First(prior, key)].0 == key;
    }
    if key !in front {
      var r := front + [key];
      forall k, l | 0 <= k < l < |r| ensures First(members, r[k]) < First(members, r[l]) {
        assert r[k] == front[k];
        if l < |front| { assert r[l] == front[l]; }
      }
    }
  }

  /** The first position of a key found before the last member stays; one
      found nowhere before it is the last member's or none. */
  lemma FirstExtend(members: seq<(string, Json)>, prior: seq<(string, Json)>, key: string)
    requires members != [] && prior == members[..|members| - 1]
    ensures First(prior, key) < |prior| ==> First(members, key) == First(prior, key)
    ensures First(prior, key) == |prior| ==>
              First(members, key) == if members[|prior|].0 == key then |prior| else |members|
  {
  }



  /** Python's `value in range(8)`: integers 0..7, both booleans (they equal
      0 and 1), and reals equal to one of those; nothing else. */
  predicate InPadRange(value: Json)
  {
    match value
    case JInt(i) => 0 <= i < 8
    case JBool(_) => true
    case JReal(whole) => whole.Some? && 0 <= whole.value < 8
    case _ => false
  }

  /** The arguments `*value` spreads: the items of a list, the characters
      of a string, the keys of an object; no value (the default `()`) gives
      none; anything else raises. */
  function Spread(value: Option<Json>): (r: Option<seq<Json>>)
    ensures value.None? ==> r == Some([])
    ensures value.Some? && value.value.JList? ==> r == Some(value.value.items)
    ensures r.None? <==> value.Some? && !(value.value.JList? || value.value.JStr? || value.value.JObject?)
  {
    match value
    case None => Some([])
    case Some(JList(items)) => Some(items)
    case Some(JStr(s)) => Some(seq(|s|, k requires 0 <= k < |s| => JStr([s[k]])))
    case Some(JObject(members)) =>
      var keys := Keys(members);
      Some(seq(|keys|, k requires 0 <= k < |keys| => JStr(keys[k])))
    case Some(_) => None
  }

  /** Python's `==` between a decoded JSON value and an integer: a boolean
      equals 0 or 1, a real equals the integer it has no fraction beyond. */
  predicate EqualsInt(value: Json, k: int)
  {
    match value
    case JInt(i) => i == k
    case JBool(b) => (if b then 1 else 0) == k
    case JReal(whole) => whole == Some(k)
    case _ => false
  }

  /** `value in range(8)` holds exactly when the value equals one of the
      integers 0..7. */
  lemma InPadRangeIsMembership(value: Json)
    ensures InPadRange(value) <==> exists k :: 0 <= k < 8 && EqualsInt(value, k)
  {
    if InPadRange(value) {
      match value
      case JInt(i) => assert EqualsInt(value, i);
      case JBool(b) => assert EqualsInt(value, if b then 1 else 0);
      case JReal(whole) => assert EqualsInt(value, whole.value);
    }
  }

  /** The serialised slots as JSON: a list of [status, nickname] pairs. */
  function SlotsJson(slots: seq<Slots.SlotView>): (j: Json)
    ensures j.JList? && |j.items| == |slots|
    ensures forall k :: 0 <= k < |slots| ==> j.items[k] == JList([JStr(slots[k].0), JStr(slots[k].1)])
  {
    JList(seq(|slots|, k requires 0 <= k < |slots| => JList([JStr(slots[k].0), JStr(slots[k].1)])))
  }

  /** The calls outside this model. */
  datatype Call = Launch | Shutdown | Release | ReleaseAll | PasswordsGet | PasswordsRegenerate

  /** What the outside world answers: the password list, and which calls
      raise. */
  datatype Env = Env(passwords: Json, raising: set<Call>)

  /** A call that completed. */
  datatype Effect =
    | LaunchPadServer
    | ShutdownPadServer
    | ReleaseSlot(index: Json, force: Json)
    | ReleaseAllSlots
    | RegeneratePasswords(indices: seq<Json>)

  /** A record written back (type "response") or broadcast (type
      "notification"): its code and its other members. */
  datatype Message = Message(code: string, fields: map<string, Json>)

  datatype Outcome = Outcome(running: bool, response: Option<Message>, effects: seq<Effect>, notices: seq<Message>)

  function Silent(running: bool): Outcome { Outcome(running, None, [], []) }

  function Answer(running: bool, code: string, fields: map<string, Json>): Outcome
  {
    Outcome(running, Some(Message(code, fields)), [], [])
  }

  /** The command of a decoded line, when the line is an object. */
  function Command(line: Line): Option<Json>
  {
    if line.Parsed? && line.payload.JObject? then Some(GetOrNull(line.payload.members, "command")) else None
  }

  predicate Known(command: Json)
  {
    command in {JStr("server:start"), JStr("server:stop"), JStr("server:is-running"), JStr("pad:clear"),
                JStr("pad:clear-all"), JStr("pad:status"), JStr("pad:reset-passwords")}
  }

  /** One admin command. */
  function Dispatch(running: bool, line: Line, slots: seq<Slots.SlotView>, env: Env): (o: Outcome)
    ensures Command(line).None? ==> o == Silent(running)
    ensures o.running != running ==>
              (Command(line) == Some(JStr("server:start")) && !running && o.effects == [LaunchPadServer]) ||
              (Command(line) == Some(JStr("server:stop")) && running && o.effects == [ShutdownPadServer])
    ensures o.response.None? ==> o.running == running && o.notices == []
    ensures o.response.None? && o.effects != [] ==> o.effects[0].RegeneratePasswords?
    ensures |o.notices| <= 1 && |o.effects| <= 1
  {
    match Command(line)
    case None => Silent(running)
    case Some(command) =>
      var members := line.payload.members;
      if command == JStr("server:start") then
        if running then Answer(running, "server:already-running", map[])
        else if Launch in env.raising then Silent(running)
        else Outcome(true, Some(Message("server:ok", map["status" := SlotsJson(slots)])), [LaunchPadServer], [])
      else if command == JStr("server:stop") then
        if !running then Answer(running, "server:not-running", map[])
        else if Shutdown in env.raising then Silent(running)
        else Outcome(false, Some(Message("server:ok", map[])), [ShutdownPadServer], [])
      else if command == JStr("server:is-running") then
        Answer(running, "server:is-running", map["value" := JBool(running)])
      else if command == JStr("pad:clear") then
        var index := GetOrNull(members, "index");
        var force := GetOrNull(members, "force");
        if !InPadRange(index) then Answer(running, "pad:invalid-index", map["index" := index])
        else if Release in env.raising then Silent(running)
        else Outcome(running, Some(Message("pad:ok", map["index" := index])), [ReleaseSlot(index, force)],
                     [Message("pad:cleared", map["index" := index])])
      else if command == JStr("pad:clear-all") then
        if ReleaseAll in env.raising then Silent(running)
        else Outcome(running, Some(Message("pad:ok", map[])), [ReleaseAllSlots], [Message("pad:all-cleared", map[])])
      else if command == JStr("pad:status") then
        if PasswordsGet in env.raising then Silent(running)
        else Answer(running, "pad:status",
                    map["value" := JObject([("pads", SlotsJson(slots)), ("passwords", env.passwords)])])
      else if command == JStr("pad:reset-passwords") then
        match Spread(Lookup(members, "indices"))
        case None => Silent(running)
        case Some(indices) =>
          if PasswordsRegenerate in env.raising then Silent(running)
          else if PasswordsGet in env.raising then Outcome(running, None, [RegeneratePasswords(indices)], [])
          else Outcome(running, Some(Message("ok", map["value" := JObject([("passwords", env.passwords)])])),
                       [RegeneratePasswords(indices)], [])
      else Answer(running, "unknown-command", map["value" := command])
  }

  /** The admin server's state: whether a pad server runs. */
  class MainServerState {
    var padServerRunning: bool

    /** A fresh state holds no pad server. */
    constructor ()
      ensures !padServerRunning
    {
      padServerRunning := false;
    }

    /** Handles one admin connection's line against the current slots. */
    method Handle(line: Line, slots: Slots.PadSlots, env: Env) returns (response: Option<Message>, effects: seq<Effect>, notices: seq<Message>)
      requires slots.Valid()
      modifies this
      ensures var o := Dispatch(old(padServerRunning), line, slots.Serialize(), env);
              padServerRunning == o.running && response == o.response && effects == o.effects && notices == o.notices
    {
      var o := Dispatch(padServerRunning, line, slots.Serialize(), env);
      padServerRunning := o.running;
      response, effects, notices := o.response, o.effects, o.notices;
    }
  }

  /** A line holding just a command. */
  function CommandLine(command: string): Line
  {
    Parsed(JObject([("command", JStr(command))]))
  }

  /** Starting a stopped server starts it and answers with the slots;
      starting it again answers "already running" and changes nothing. */
  lemma StartIsIdempotent(start: Line, slots: seq<Slots.SlotView>, env: Env)
    requires Command(start) == Some(JStr("server:start")) && Launch !in env.raising
    ensures var first := Dispatch(false, start, slots, env);
            && first.running && first.effects == [LaunchPadServer]
            && first.response == Some(Message("server:ok", map["status" := SlotsJson(slots)]))
    ensures var again := Dispatch(true, start, slots, env);
            again == Outcome(true, Some(Message("server:already-running", map[])), [], [])
  {
  }

  /** Stopping a started server stops it; stopping a stopped one answers
      "not running" and changes nothing. */
  lemma StopAfterStart(start: Line, stop: Line, slots: seq<Slots.SlotView>, env: Env)
    requires Command(start) == Some(JStr("server:start")) && Command(stop) == Some(JStr("server:stop"))
    requires Launch !in env.raising && Shutdown !in env.raising
    ensures var started := Dispatch(false, start, slots, env);
            var stopped := Dispatch(started.running, stop, slots, env);
            stopped == Outcome(false, Some(Message("server:ok", map[])), [ShutdownPadServer], [])
    ensures Dispatch(false, stop, slots, env) ==
            Outcome(false, Some(Message("server:not-running", map[])), [], [])
  {
  }

  /** Asking whether the server runs reports the flag and changes nothing. */
  lemma IsRunningReports(running: bool, line: Line, slots: seq<Slots.SlotView>, env: Env)
    requires Command(line) == Some(JStr("server:is-running"))
    ensures Dispatch(running, line, slots, env) ==
            Outcome(running, Some(Message("server:is-running", map["value" := JBool(running)])), [], [])
  {
  }

  /** `pad:clear` releases a slot exactly when the index is in range (and
      the release does not raise), answering "pad:ok" with the index; an
      index out of range answers "pad:invalid-index" and releases nothing. */
  lemma ClearReleasesValidIndex(running: bool, line: Line, slots: seq<Slots.SlotView>, env: Env)
    requires Command(line) == Some(JStr("pad:clear")) && Release !in env.raising
    ensures var index := GetOrNull(line.payload.members, "index");
            var force := GetOrNull(line.payload.members, "force");
            var o := Dispatch(running, line, slots, env);
            && o.running == running
            && (InPadRange(index) <==> o.effects == [ReleaseSlot(index, force)])
            && (InPadRange(index) ==> o.response == Some(Message("pad:ok", map["index" := index])))
            && (!InPadRange(index) ==> o.response == Some(Message("pad:invalid-index", map["index" := index])) && o.effects == [])
  {
  }

  /** An unknown command is echoed back and has no effect. */
  lemma UnknownCommandEchoes(running: bool, line: Line, slots: seq<Slots.SlotView>, env: Env)
    requires Command(line).Some? && !Known(Command(line).value)
    ensures Dispatch(running, line, slots, env) ==
            Outcome(running, Some(Message("unknown-command", map["value" := Command(line).value])), [], [])
  {
  }

  /** A line without a command member echoes a null command. */
  lemma MissingCommand(running: bool, slots: seq<Slots.SlotView>, env: Env)
    ensures Dispatch(running, Parsed(JObject([])), slots, env) ==
            Outcome(running, Some(Message("unknown-command", map["value" := JNull])), [], [])
  {
  }

  /** Booleans pass the index check, as they equal 0 and 1. */
  lemma BooleanIndexAccepted(running: bool, b: bool, slots: seq<Slots.SlotView>, env: Env)
    requires Release !in env.raising
    ensures var line := Parsed(JObject([("command", JStr("pad:clear")), ("index", JBool(b))]));
            Dispatch(running, line, slots, env).effects == [ReleaseSlot(JBool(b), JNull)]
  {
    var members := [("command", JStr("pad:clear")), ("index", JBool(b))];
    assert members[..1] == [("command", JStr("pad:clear"))];
    assert Lookup(members[..1], "command") == Some(JStr("pad:clear"));
    assert GetOrNull(members, "command") == JStr("pad:clear");
    assert GetOrNull(members, "index") == JBool(b);
    assert Lookup(members[..1], "force") == None;
  }

  /** `pad:status` answers with the serialised slots and the passwords,
      unless reading the passwords raises; it changes nothing else. */
  lemma StatusReports(running: bool, line: Line, slots: seq<Slots.SlotView>, env: Env)
    requires Command(line) == Some(JStr("pad:status"))
    ensures var o := Dispatch(running, line, slots, env);
            && o.running == running && o.effects == [] && o.notices == []
            && (PasswordsGet !in env.raising <==> o.response.Some?)
            && (PasswordsGet !in env.raising ==>
                  o.response == Some(Message("pad:status",
                                  map["value" := JObject([("pads", SlotsJson(slots)), ("passwords", env.passwords)])])))
  {
  }

  /** `pad:clear-all` releases every slot, answers "pad:ok" and broadcasts
      "pad:all-cleared"; when the release raises, nothing happens. */
  lemma ClearAllReleases(running: bool, line: Line, slots: seq<Slots.SlotView>, env: Env)
    requires Command(line) == Some(JStr("pad:clear-all"))
    ensures var o := Dispatch(running, line, slots, env);
            && o.running == running
            && (ReleaseAll !in env.raising ==>
                  && o.effects == [ReleaseAllSlots]
                  && o.response == Some(Message("pad:ok", map[]))
                  && o.notices == [Message("pad:all-cleared", map[])])
            && (ReleaseAll in env.raising ==> o == Silent(running))
  {
  }

  /** `pad:reset-passwords` regenerates the passwords of the spread
      `indices` (none when absent) and answers "ok" with the new passwords.
      A value that cannot be spread, or a raising regeneration, does
      nothing; a raising read after the regeneration keeps it but answers
      nothing. */
  lemma ResetRegenerates(running: bool, line: Line, slots: seq<Slots.SlotView>, env: Env)
    requires Command(line) == Some(JStr("pad:reset-passwords"))
    ensures var o := Dispatch(running, line, slots, env);
            var spread := Spread(Lookup(line.payload.members, "indices"));
            && o.running == running && o.notices == []
            && (spread.None? || PasswordsRegenerate in env.raising ==> o == Silent(running))
            && (spread.Some? && PasswordsRegenerate !in env.raising ==>
                  && o.effects == [RegeneratePasswords(spread.value)]
                  && (PasswordsGet !in env.raising <==> o.response.Some?)
                  && (PasswordsGet !in env.raising ==>
                        o.response == Some(Message("ok", map["value" := JObject([("passwords", env.passwords)])]))))
  {
  }

  /** Without an `indices` member every password is regenerated (no
      arguments). */
  lemma ResetWithoutIndices(running: bool, slots: seq<Slots.SlotView>, env: Env)
    requires PasswordsRegenerate !in env.raising && PasswordsGet !in env.raising
    ensures Dispatch(running, CommandLine("pad:reset-passwords"), slots, env).effects == [RegeneratePasswords([])]
  {
    assert GetOrNull([("command", JStr("pad:reset-passwords"))], "command") == JStr("pad:reset-passwords");
  }
}
