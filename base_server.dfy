/** Connection numbering of virtualpad/base_server.py: a registry, keyed by
    handler class and then by server, of how many connections each server
    has handed to each handler class. A handler takes the next number when
    it is set up; closing a server forgets its counter. */
module BaseServer {
  import opened Base

  /** A handler class, by name. */
  type HandlerClass = string
  /** A server object, by identity. */
  type ServerId = nat
  type Pair = (HandlerClass, ServerId)
  /** The registry's contents: a counter per server within each class. */
  type Registry = map<HandlerClass, map<ServerId, nat>>

  /** The counter of one (handler class, server) pair; an absent pair
      counts as 0. */
  function Count(m: Registry, cls: HandlerClass, server: ServerId): nat
  {
    if cls in m && server in m[cls] then m[cls][server] else 0
  }

  /** The registry after one more connection of the pair. */
  function Bump(m: Registry, cls: HandlerClass, server: ServerId): (r: Registry)
    ensures Count(r, cls, server) == Count(m, cls, server) + 1
    ensures forall c: HandlerClass, s: ServerId :: (c, s) != (cls, server) ==> Count(r, c, s) == Count(m, c, s)
    ensures r.Keys == m.Keys + {cls}
  {
    var inner := if cls in m then m[cls] else map[];
    m[cls := inner[server := Count(m, cls, server) + 1]]
  }

  /** The registry after the server's counter is dropped; the class keeps
      its (possibly empty) entry. */
  function Drop(m: Registry, cls: HandlerClass, server: ServerId): (r: Registry)
    ensures Count(r, cls, server) == 0
    ensures forall c: HandlerClass, s: ServerId :: (c, s) != (cls, server) ==> Count(r, c, s) == Count(m, c, s)
    ensures r.Keys == m.Keys
  {
    if cls in m then m[cls := m[cls] - {server}] else m
  }

  /** The numbers handed out to a run of connections, in order, and the
      registry afterwards. */
  function Issue(m: Registry, calls: seq<Pair>): (r: (seq<nat>, Registry))
    ensures |r.0| == |calls|
    decreases |calls|
  {
    if calls == [] then ([], m)
    else
      var before := Issue(m, calls[..|calls| - 1]);
      var (cls, server) := calls[|calls| - 1];
      (before.0 + [Count(before.1, cls, server)], Bump(before.1, cls, server))
  }

  /** How many of the calls are for the pair. */
  function Occurrences(calls: seq<Pair>, pair: Pair): nat
    decreases |calls|
  {
    if calls == [] then 0
    else Occurrences(calls[..|calls| - 1], pair) + (if calls[|calls| - 1] == pair then 1 else 0)
  }

  /** After a run of connections, each pair's counter has grown by the
      number of connections of that pair. */
  lemma {:induction false} IssueCounts(m: Registry, calls: seq<Pair>, cls: HandlerClass, server: ServerId)
    ensures Count(Issue(m, calls).1, cls, server) == Count(m, cls, server) + Occurrences(calls, (cls, server))
    decreases |calls|
  {
    if calls != [] {
      IssueCounts(m, calls[..|calls| - 1], cls, server);
    }
  }

  /** The number a connection receives is the pair's starting counter plus
      the connections of the same pair before it. */
  lemma {:induction false} IssueAt(m: Registry, calls: seq<Pair>, i: nat)
    requires i < |calls|
    ensures Issue(m, calls).0[i] == Count(m, calls[i].0, calls[i].1) + Occurrences(calls[..i], calls[i])
    decreases |calls|
  {
    var front := calls[..|calls| - 1];
    if i == |calls| - 1 {
      IssueCounts(m, front, calls[i].0, calls[i].1);
      assert calls[..i] == front;
    } else {
      IssueAt(m, front, i);
      assert front[..i] == calls[..i];
    }
  }

  lemma {:induction false} OccurrencesGrow(calls: seq<Pair>, i: nat, j: nat)
    requires i < j <= |calls|
    ensures Occurrences(calls[..j], calls[i]) > Occurrences(calls[..i], calls[i])
    decreases j
  {
    assert calls[..j][..j - 1] == calls[..j - 1];
    if j - 1 > i {
      OccurrencesGrow(calls, i, j - 1);
    } else {
      assert calls[..j - 1] == calls[..i];
    }
  }

  /** Connections of the same pair get strictly increasing, hence distinct,
      numbers; a fresh registry numbers each pair's connections 0, 1, 2, … */
  lemma IssueDistinct(m: Registry, calls: seq<Pair>, i: nat, j: nat)
    requires i < j < |calls| && calls[i] == calls[j]
    ensures Issue(m, calls).0[i] < Issue(m, calls).0[j]
    ensures m == map[] ==> Issue(m, calls).0[i] == Occurrences(calls[..i], calls[i])
  {
    IssueAt(m, calls, i);
    IssueAt(m, calls, j);
    OccurrencesGrow(calls, i, j);
  }

  /** The first connection of a pair in a fresh registry gets 0; two
      connections of a pair in a row get consecutive numbers. */
  lemma SuccessiveIndices(m: Registry, cls: HandlerClass, server: ServerId)
    ensures Issue(map[], [(cls, server)]).0 == [0]
    ensures Issue(m, [(cls, server), (cls, server)]).0 == [Count(m, cls, server), Count(m, cls, server) + 1]
  {
    var calls: seq<Pair> := [(cls, server), (cls, server)];
    assert calls[..1] == [(cls, server)];
    IssueOne(m, (cls, server));
    IssueOne(map[], (cls, server));
  }

  /** A single connection. */
  lemma IssueOne(m: Registry, p: Pair)
    ensures Issue(m, [p]) == ([Count(m, p.0, p.1)], Bump(m, p.0, p.1))
  {
    var none: seq<Pair> := [];
    var nothing: seq<nat> := [];
    assert [p][..0] == none;
    assert Issue(m, none) == (nothing, m);
    assert nothing + [Count(m, p.0, p.1)] == [Count(m, p.0, p.1)];
  }

  /** Dropping a server and connecting again starts its numbering at 0. */
  lemma DropRestarts(m: Registry, cls: HandlerClass, server: ServerId)
    ensures Issue(Drop(m, cls, server), [(cls, server)]).0 == [0]
  {
  }

  /** The module-level registry of connection counters. */
  class IndexRegistry {
    var mapping: Registry

    constructor ()
      ensures mapping == map[]
    {
      mapping := map[];
    }

    /** Returns the pair's counter, then increments it (creating both
        levels on first use). */
    method NextIndex(cls: HandlerClass, server: ServerId) returns (value: nat)
      modifies this
      ensures value == Count(old(mapping), cls, server)
      ensures mapping == Bump(old(mapping), cls, server)
    {
      var stored: map<ServerId, nat> := if cls in mapping then mapping[cls] else map[];
      var inner: map<ServerId, nat> := if server in stored then stored else stored[server := 0];
      value := inner[server];
      assert inner[server := value + 1] == stored[server := value + 1];
      mapping := mapping[cls := inner[server := value + 1]];
    }

    /** Forgets the server's counter for the class; a missing class or
        server changes nothing. */
    method PopServer(cls: HandlerClass, server: ServerId)
      modifies this
      ensures mapping == Drop(old(mapping), cls, server)
    {
      if cls in mapping {
        mapping := mapping[cls := mapping[cls] - {server}];
      }
    }
  }

  /** A stream handler that numbers its connection when set up. */
  class IndexedHandler {
    const handlerClass: HandlerClass
    const server: ServerId
    var index: Option<nat>

    constructor (handlerClass: HandlerClass, server: ServerId)
      ensures this.handlerClass == handlerClass && this.server == server && index == None
    {
      this.handlerClass := handlerClass;
      this.server := server;
      index := None;
    }

    method Setup(registry: IndexRegistry)
      modifies this, registry
      ensures index == Some(Count(old(registry.mapping), handlerClass, server))
      ensures registry.mapping == Bump(old(registry.mapping), handlerClass, server)
    {
      var value := registry.NextIndex(handlerClass, server);
      index := Some(value);
    }
  }
}
